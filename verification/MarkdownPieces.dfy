// How one section body becomes pieces: blocks are packed greedily into bins,
// a giant block is cut by lines, and the ranges are stitched together.  The
// second half states what a reader of the pieces may rely on.
module MarkdownPieces {
  import opened Basics
  import opened MarkdownLines
  import opened MarkdownFences
  import opened MarkdownSplit

  predicate IsGiant(lines: seq<string>, b: Range)
    requires 1 <= b.0 && b.1 <= |lines|
  {
    HARD_SPLIT_CHARS <= RawCharLen(lines, b.0, b.1)
  }

  predicate InLines(lines: seq<string>, blocks: seq<Range>) {
    forall k :: 0 <= k < |blocks| ==> 1 <= blocks[k].0 <= blocks[k].1 <= |lines|
  }

  predicate InOrder(blocks: seq<Range>) {
    && (forall k :: 0 <= k < |blocks| ==> blocks[k].0 <= blocks[k].1)
    && (forall j, k :: 0 <= j < k < |blocks| ==> blocks[j].1 < blocks[k].0)
  }

  /** Where pieces begin from block k on, given the size of the open bin, if one is open. */
  function Cuts(lines: seq<string>, blocks: seq<Range>, k: nat, open: Option<nat>): (r: seq<nat>)
    requires InLines(lines, blocks) && k <= |blocks|
    ensures k < |blocks| && open == None ==> r != [] && r[0] == blocks[k].0
    decreases |blocks| - k
  {
    if k == |blocks| then []
    else
      var b := blocks[k];
      var blen := RawCharLen(lines, b.0, b.1);
      if IsGiant(lines, b) then Starts(HardSplit(lines, b.0, b.1)) + Cuts(lines, blocks, k + 1, None)
      else if open.Some? && open.value + blen <= SPLIT_CHARS then Cuts(lines, blocks, k + 1, Some(open.value + blen))
      else [b.0] + Cuts(lines, blocks, k + 1, Some(blen))
  }

  /** One block: it is cut by lines, or goes into the open bin, or opens a new one. */
  lemma CutsCases(lines: seq<string>, blocks: seq<Range>, k: nat, open: Option<nat>)
    requires InLines(lines, blocks) && k <= |blocks|
    ensures k == |blocks| ==> Cuts(lines, blocks, k, open) == []
    ensures k < |blocks| ==>
              var b := blocks[k];
              var blen := RawCharLen(lines, b.0, b.1);
              Cuts(lines, blocks, k, open) ==
                if IsGiant(lines, b) then Starts(HardSplit(lines, b.0, b.1)) + Cuts(lines, blocks, k + 1, None)
                else if open.Some? && open.value + blen <= SPLIT_CHARS then
                  Cuts(lines, blocks, k + 1, Some(open.value + blen))
                else [b.0] + Cuts(lines, blocks, k + 1, Some(blen))
  {
    hide RawCharLen, HardSplit, IsGiant, Starts;
  }

  function SplitOf(lines: seq<string>, first: nat, last: nat): (r: seq<Range>)
    requires 1 <= first && last <= |lines|
  {
    if last < first || RawCharLen(lines, first, last) <= SPLIT_CHARS then [(first, last)]
    else Ranges([first] + Cuts(lines, ParagraphBlocksOf(lines, first, last), 0, None)[1..], last)
  }

  method StitchRanges(ranges: seq<Range>, start: nat, end: nat) returns (pieces: seq<Range>)
    ensures ranges == [] ==> pieces == [(start, end)]
    ensures ranges != [] ==>
              && |pieces| == |ranges|
              && pieces[0].0 == start
              && (forall k :: 1 <= k < |pieces| ==> pieces[k].0 == ranges[k].0)
              && (forall k :: 0 <= k < |pieces| - 1 ==>
                    pieces[k].1 == Max(SaturatingSub(ranges[k + 1].0, 1), pieces[k].0))
              && pieces[|pieces| - 1].1 == end
  {
    if ranges == [] {
      return [(start, end)];
    }
    pieces := ranges[0 := (start, ranges[0].1)];
    var i := 0;
    while i < |pieces| - 1
      invariant 0 <= i <= |pieces| - 1 && |pieces| == |ranges|
      invariant pieces[0].0 == start
      invariant forall k :: 1 <= k < |pieces| ==> pieces[k].0 == ranges[k].0
      invariant forall k :: 0 <= k < i ==> pieces[k].1 == Max(SaturatingSub(ranges[k + 1].0, 1), pieces[k].0)
    {
      var nextStart := pieces[i + 1].0;
      pieces := pieces[i := (pieces[i].0, Max(SaturatingSub(nextStart, 1), pieces[i].0))];
      i := i + 1;
    }
    pieces := pieces[i := (pieces[i].0, end)];
  }

  method SplitSection(lines: seq<string>, first: nat, last: nat) returns (r: seq<Range>)
    requires 1 <= first && last <= |lines|
    ensures r == SplitOf(lines, first, last)
  {
    hide RawCharLen, ParagraphBlocksOf, Cuts, Increasing;
    if first > last {
      return [(first, last)];
    }
    if RawCharLen(lines, first, last) <= SPLIT_CHARS {
      return [(first, last)];
    }
    var blocks := ParagraphBlocks(lines, first, last);
    BlocksInOrder(lines, first, last);
    var pieces := CutBlocks(lines, blocks, last);
    r := StitchRanges(pieces, first, last);
    ghost var cuts := SplitStarts(lines, first, last);
    StitchedFromStarts(pieces, r, first, last);
  }

  /** When the starts increase, stitching depends on nothing but the starts. */
  lemma StitchedFromStarts(pieces: seq<Range>, r: seq<Range>, first: nat, last: nat)
    requires pieces != [] && |r| == |pieces| && Increasing(Starts(pieces), first, last)
    requires r[0].0 == first && r[|r| - 1].1 == last
    requires forall k :: 1 <= k < |r| ==> r[k].0 == pieces[k].0
    requires forall k :: 0 <= k < |r| - 1 ==> r[k].1 == Max(SaturatingSub(pieces[k + 1].0, 1), r[k].0)
    ensures r == Ranges([first] + Starts(pieces)[1..], last)
  {
    var starts := [first] + Starts(pieces)[1..];
    forall k | 0 <= k < |r|
      ensures r[k] == Ranges(starts, last)[k]
    {
      assert starts[k] == r[k].0;
      if k + 1 < |r| {
        assert starts[k + 1] == pieces[k + 1].0;
        assert Starts(pieces)[k] < Starts(pieces)[k + 1];
      }
    }
  }

  function BinStarts(bin: Option<nat>): seq<nat> {
    if bin.Some? then [bin.value] else []
  }

  /** Where the pieces so far, the open bin and the blocks still to come begin. */
  function AllStarts(lines: seq<string>, blocks: seq<Range>, pieces: seq<Range>, bin: Option<nat>, k: nat,
        chars: nat): seq<nat>
    requires InLines(lines, blocks) && k <= |blocks|
  {
    Starts(pieces) + BinStarts(bin) + Cuts(lines, blocks, k, if bin.Some? then Some(chars) else None)
  }

  /** Closing the open bin before line `before`. */
  function Flushed(pieces: seq<Range>, bin: Option<nat>, before: nat): (r: seq<Range>)
    ensures Starts(r) == Starts(pieces) + BinStarts(bin)
  {
    if bin.Some? then PushPiece(pieces, (bin.value, Max(SaturatingSub(before, 1), bin.value))) else pieces
  }

  lemma CutsStep(lines: seq<string>, blocks: seq<Range>, k: nat, open: Option<nat>)
    requires InLines(lines, blocks) && k < |blocks|
    ensures var b := blocks[k];
            var blen := RawCharLen(lines, b.0, b.1);
            Cuts(lines, blocks, k, open) ==
              if HARD_SPLIT_CHARS <= blen then Starts(HardSplit(lines, b.0, b.1)) + Cuts(lines, blocks, k + 1, None)
              else if open.Some? && open.value + blen <= SPLIT_CHARS then
                Cuts(lines, blocks, k + 1, Some(open.value + blen))
              else [b.0] + Cuts(lines, blocks, k + 1, Some(blen))
  {
    hide RawCharLen, HardSplit, Starts;
  }

  /** The ways a block is taken in leave all starts as they are. */
  lemma BinStep(lines: seq<string>, blocks: seq<Range>, pieces: seq<Range>, bin: Option<nat>, k: nat, chars: nat)
    requires InLines(lines, blocks) && k < |blocks|
    ensures var b := blocks[k];
            var blen := RawCharLen(lines, b.0, b.1);
            var flushed := Flushed(pieces, bin, b.0);
            AllStarts(lines, blocks, pieces, bin, k, chars) ==
              if HARD_SPLIT_CHARS <= blen then
                AllStarts(lines, blocks, flushed + HardSplit(lines, b.0, b.1), None, k + 1, 0)
              else if bin.Some? && chars + blen <= SPLIT_CHARS then
                AllStarts(lines, blocks, pieces, bin, k + 1, chars + blen)
              else
                AllStarts(lines, blocks, flushed, Some(b.0), k + 1, blen)
  {
    hide RawCharLen, HardSplit, Starts, InLines, Cuts, Flushed;
    BlockInLines(lines, blocks, k);
    CutsStep(lines, blocks, k, if bin.Some? then Some(chars) else None);
    StartsJoin(Flushed(pieces, bin, blocks[k].0), HardSplit(lines, blocks[k].0, blocks[k].1));
  }

  lemma BlockInLines(lines: seq<string>, blocks: seq<Range>, k: nat)
    requires InLines(lines, blocks) && k < |blocks|
    ensures 1 <= blocks[k].0 <= blocks[k].1 <= |lines|
  {
  }

  lemma AllStartsAtEnd(lines: seq<string>, blocks: seq<Range>, pieces: seq<Range>, bin: Option<nat>, chars: nat,
        last: nat)
    requires InLines(lines, blocks)
    ensures AllStarts(lines, blocks, pieces, bin, |blocks|, chars) ==
              Starts(if bin.Some? then PushPiece(pieces, (bin.value, last)) else pieces)
  {
    hide Starts, RawCharLen, HardSplit, PushPiece;
  }

  lemma AllStartsAtStart(lines: seq<string>, blocks: seq<Range>)
    requires InLines(lines, blocks)
    ensures AllStarts(lines, blocks, [], None, 0, 0) == Cuts(lines, blocks, 0, None)
  {
    assert Starts([]) == [];
  }

  /** The binning loop of the splitter. */
  method CutBlocks(lines: seq<string>, blocks: seq<Range>, last: nat) returns (pieces: seq<Range>)
    requires InLines(lines, blocks)
    ensures Starts(pieces) == Cuts(lines, blocks, 0, None)
  {
    hide RawCharLen, HardSplit, Starts, AllStarts, InLines, PushPiece;
    pieces := [];
    var binStart: Option<nat> := None;
    var binChars: nat := 0;
    var k := 0;
    AllStartsAtStart(lines, blocks);
    while k < |blocks|
      invariant 0 <= k <= |blocks|
      invariant binStart == None ==> binChars == 0
      invariant AllStarts(lines, blocks, pieces, binStart, k, binChars) == Cuts(lines, blocks, 0, None)
    {
      var b := blocks[k];
      BlockInLines(lines, blocks, k);
      BinStep(lines, blocks, pieces, binStart, k, binChars);
      var blen := RawCharLen(lines, b.0, b.1);
      if blen >= HARD_SPLIT_CHARS {
        if binStart.Some? {
          pieces := PushPiece(pieces, (binStart.value, Max(SaturatingSub(b.0, 1), binStart.value)));
          binStart := None;
        }
        binChars := 0;
        var hard := HardSplitBlock(lines, b.0, b.1);
        pieces := pieces + hard;
      } else if binStart == None {
        binStart := Some(b.0);
        binChars := blen;
      } else if binChars + blen > SPLIT_CHARS {
        pieces := PushPiece(pieces, (binStart.value, Max(SaturatingSub(b.0, 1), binStart.value)));
        binStart := Some(b.0);
        binChars := blen;
      } else {
        binChars := binChars + blen;
      }
      k := k + 1;
    }
    AllStartsAtEnd(lines, blocks, pieces, binStart, binChars, last);
    if binStart.Some? {
      pieces := PushPiece(pieces, (binStart.value, last));
    }
  }

  lemma StartsJoin(a: seq<Range>, b: seq<Range>)
    ensures Starts(a + b) == Starts(a) + Starts(b)
  {
  }

  function PushPiece(pieces: seq<Range>, piece: Range): (r: seq<Range>)
    ensures Starts(r) == Starts(pieces) + [piece.0]
  {
    pieces + [piece]
  }

  // ----- the cuts are ordered, so stitching leaves no gap -----

  lemma {:induction false} RunBlocksInOrder(lines: seq<string>, first: nat, ln: nat, last: nat)
    requires 1 <= first <= ln <= last + 1 <= |lines| + 1
    ensures InOrder(Blocks(lines, first, ln, last))
    decreases last + 1 - ln
  {
    hide IsSeparator, RunEnd;
    if ln <= last {
      if IsSeparator(lines, first, ln) {
        RunBlocksInOrder(lines, first, ln + 1, last);
      } else {
        RunBlocksInOrder(lines, first, RunEnd(lines, first, ln, last) + 1, last);
      }
    }
  }

  lemma BlocksInOrder(lines: seq<string>, first: nat, last: nat)
    requires 1 <= first <= last <= |lines|
    ensures InOrder(ParagraphBlocksOf(lines, first, last)) && InLines(lines, ParagraphBlocksOf(lines, first, last))
  {
    RunBlocksInOrder(lines, first, first, last);
  }

  predicate Increasing(s: seq<nat>, low: nat, high: nat) {
    && (forall k :: 0 <= k < |s| ==> low <= s[k] <= high)
    && (forall j, k :: 0 <= j < k < |s| ==> s[j] < s[k])
  }

  lemma IncreasingJoins(a: seq<nat>, b: seq<nat>, low: nat, mid: nat, high: nat)
    requires Increasing(a, low, mid) && Increasing(b, mid + 1, high) && low <= mid <= high
    ensures Increasing(a + b, low, high)
  {
  }

  lemma StartsCons(ranges: seq<Range>)
    requires ranges != []
    ensures Starts(ranges) == [ranges[0].0] + Starts(ranges[1..])
  {
  }

  lemma TilesCons(ranges: seq<Range>, first: nat, last: nat)
    requires Tiles(ranges, first, last)
    ensures ranges != [] && ranges[0].0 == first <= ranges[0].1 <= last
    ensures |ranges| == 1 ==> ranges[1..] == []
    ensures 1 < |ranges| ==> Tiles(ranges[1..], ranges[0].1 + 1, last)
  {
    TilesStayInside(ranges, first, last);
  }

  lemma FewIncrease(a: nat, low: nat, high: nat)
    requires low <= a <= high
    ensures Increasing([a], low, high) && Increasing([], low, high)
  {
  }

  lemma {:induction false} TileStartsIncrease(ranges: seq<Range>, first: nat, last: nat)
    requires Tiles(ranges, first, last)
    ensures Increasing(Starts(ranges), first, last)
    decreases |ranges|
  {
    hide Tiles, Starts, Increasing;
    TilesCons(ranges, first, last);
    StartsCons(ranges);
    FewIncrease(first, first, last);
    if 1 < |ranges| {
      FewIncrease(first, first, ranges[0].1);
      TileStartsIncrease(ranges[1..], ranges[0].1 + 1, last);
      IncreasingJoins([first], Starts(ranges[1..]), first, ranges[0].1, last);
    } else {
      assert Starts([]) == [] by { NoStarts(); }
      assert [first] + [] == [first];
    }
  }

  lemma NoStarts()
    ensures Starts([]) == []
  {
  }

  lemma NothingIncreases(low: nat, high: nat)
    ensures Increasing([], low, high)
  {
  }

  lemma {:induction false} CutsIncrease(lines: seq<string>, blocks: seq<Range>, k: nat, open: Option<nat>, low: nat,
        high: nat)
    requires InLines(lines, blocks) && InOrder(blocks) && k <= |blocks|
    requires k < |blocks| ==> low <= blocks[k].0 && blocks[|blocks| - 1].1 <= high
    ensures Increasing(Cuts(lines, blocks, k, open), low, high)
    decreases |blocks| - k
  {
    hide RawCharLen, HardSplit, IsGiant, Starts, Cuts;
    CutsCases(lines, blocks, k, open);
    if k == |blocks| {
      NothingIncreases(low, high);
    } else {
      var b := blocks[k];
      var blen := RawCharLen(lines, b.0, b.1);
      if IsGiant(lines, b) {
        var hard := HardSplit(lines, b.0, b.1);
        HardSplitTiles(lines, b.0, b.1);
        TileStartsIncrease(hard, b.0, b.1);
        CutsIncrease(lines, blocks, k + 1, None, b.1 + 1, high);
        IncreasingJoins(Starts(hard), Cuts(lines, blocks, k + 1, None), low, b.1, high);
      } else if open.Some? && open.value + blen <= SPLIT_CHARS {
        CutsIncrease(lines, blocks, k + 1, Some(open.value + blen), b.1 + 1, high);
      } else {
        CutsIncrease(lines, blocks, k + 1, Some(blen), b.1 + 1, high);
        IncreasingJoins([b.0], Cuts(lines, blocks, k + 1, Some(blen)), low, b.1, high);
      }
    }
  }

  /** Ranges made from increasing starts tile what they start from. */
  lemma RangesTile(starts: seq<nat>, first: nat, last: nat)
    requires starts != [] && starts[0] == first && Increasing(starts, first, last)
    ensures Tiles(Ranges(starts, last), first, last)
  {
  }

  lemma SplitStarts(lines: seq<string>, first: nat, last: nat) returns (cuts: seq<nat>)
    requires 1 <= first <= last <= |lines|
    ensures cuts == Cuts(lines, ParagraphBlocksOf(lines, first, last), 0, None)
    ensures cuts != [] && Increasing(cuts, first, last) && Increasing([first] + cuts[1..], first, last)
  {
    BlocksInOrder(lines, first, last);
    cuts := Cuts(lines, ParagraphBlocksOf(lines, first, last), 0, None);
    CutsIncrease(lines, ParagraphBlocksOf(lines, first, last), 0, None, first, last);
    FirstMayMoveBack(cuts, first, last);
  }

  lemma FirstMayMoveBack(s: seq<nat>, first: nat, last: nat)
    requires s != [] && Increasing(s, first, last)
    ensures Increasing([first] + s[1..], first, last)
  {
    assert forall k :: 1 <= k < |s| ==> s[0] < s[k];
  }

  /** The pieces of a non-empty body tile it. */
  lemma SplitTiles(lines: seq<string>, first: nat, last: nat)
    requires 1 <= first <= last <= |lines|
    ensures Tiles(SplitOf(lines, first, last), first, last)
  {
    hide RawCharLen, ParagraphBlocksOf, Cuts, Increasing;
    if SPLIT_CHARS < RawCharLen(lines, first, last) {
      var cuts := SplitStarts(lines, first, last);
      RangesTile([first] + cuts[1..], first, last);
    }
  }
}
