// What holds of the pieces of a section body: where the boundaries between
// them are, how large they can get, and that none was cut off too early.
module MarkdownPieceLaws {
  import opened Basics
  import opened Text
  import opened MarkdownLines
  import opened MarkdownFences
  import opened MarkdownSplit
  import opened MarkdownPieces

  /** Characters of the lines `a..b` that are not separators. */
  function TextLen(lines: seq<string>, first: nat, a: nat, b: nat): (n: nat)
    requires 1 <= first <= a && b <= |lines|
    ensures b < a ==> n == 0
    decreases b
  {
    if b < a then 0
    else TextLen(lines, first, a, b - 1) + (if IsSeparator(lines, first, b) then 0 else |lines[b - 1]| + 1)
  }

  lemma {:induction false} TextLenSplits(lines: seq<string>, first: nat, a: nat, m: nat, b: nat)
    requires 1 <= first <= a <= m + 1 && m <= b <= |lines|
    ensures TextLen(lines, first, a, b) == TextLen(lines, first, a, m) + TextLen(lines, first, m + 1, b)
    decreases b
  {
    hide IsSeparator;
    if m < b {
      TextLenSplits(lines, first, a, m, b - 1);
    }
  }

  lemma {:induction false} TextLenOfText(lines: seq<string>, first: nat, a: nat, b: nat)
    requires 1 <= first <= a && b <= |lines|
    requires forall x :: a <= x <= b ==> !IsSeparator(lines, first, x)
    ensures TextLen(lines, first, a, b) == RawCharLen(lines, a, b)
    decreases b
  {
    hide IsSeparator;
    if a <= b {
      TextLenOfText(lines, first, a, b - 1);
    }
  }

  lemma {:induction false} TextLenOfGap(lines: seq<string>, first: nat, a: nat, b: nat)
    requires 1 <= first <= a && b <= |lines|
    requires forall x :: a <= x <= b ==> IsSeparator(lines, first, x)
    ensures TextLen(lines, first, a, b) == 0
    decreases b
  {
    hide IsSeparator;
    if a <= b {
      TextLenOfGap(lines, first, a, b - 1);
    }
  }

  // ----- the three laws -----

  /** Line x is the only text among the lines `a..b`. */
  predicate IsOnlyText(lines: seq<string>, first: nat, a: nat, b: nat, x: nat)
    requires 1 <= first <= a && b <= |lines|
  {
    a <= x <= b && forall y :: a <= y <= b && y != x ==> IsSeparator(lines, first, y)
  }

  /** All text among the lines `a..b` belongs to one block, which is not giant. */
  ghost predicate IsOneSmallBlock(lines: seq<string>, first: nat, last: nat, a: nat, b: nat)
    requires 1 <= first <= a && b <= last <= |lines|
  {
    exists k: Range ::
      && IsBlock(lines, first, last, k) && !IsGiant(lines, k)
      && forall y :: a <= y <= b && !IsSeparator(lines, first, y) ==> k.0 <= y <= k.1
  }

  /**
   * The text of a piece is below the hard limit, or one line; and within the
   * split limit, or one line, or all of it from one block that is not giant.
   */
  ghost predicate Fits(lines: seq<string>, first: nat, last: nat, a: nat, b: nat)
    requires 1 <= first <= a && b <= last <= |lines|
  {
    || (exists x: nat :: IsOnlyText(lines, first, a, b, x))
    || (&& TextLen(lines, first, a, b) < HARD_SPLIT_CHARS
        && (TextLen(lines, first, a, b) <= SPLIT_CHARS || IsOneSmallBlock(lines, first, last, a, b)))
  }

  ghost predicate IsGiantBlock(lines: seq<string>, first: nat, last: nat, b: Range)
    requires 1 <= first && last <= |lines|
  {
    IsBlock(lines, first, last, b) && IsGiant(lines, b)
  }

  /** A piece may begin at line t: just below a separator, or inside a giant block. */
  ghost predicate MayBegin(lines: seq<string>, first: nat, last: nat, t: nat)
    requires 1 <= first < t <= last <= |lines|
  {
    || IsSeparator(lines, first, t - 1)
    || exists b: Range :: IsGiantBlock(lines, first, last, b) && b.0 < t <= b.1
  }

  /**
   * The cut at line t was called for.  Below a separator, the piece that begins
   * at a would have passed the limit with the block of line t, or a giant block
   * begins here or ends in that piece.  Elsewhere the piece would have passed
   * the limit with line t.
   */
  ghost predicate CalledFor(lines: seq<string>, first: nat, last: nat, a: nat, t: nat)
    requires 1 <= first <= a < t <= last <= |lines|
  {
    if IsSeparator(lines, first, t - 1) then
      || SPLIT_CHARS < TextLen(lines, first, a, RunEnd(lines, first, t, last))
      || exists b: Range :: IsGiantBlock(lines, first, last, b) && (b.0 == t || a <= b.1 < t)
    else SPLIT_CHARS < TextLen(lines, first, a, t)
  }

  /** All three laws, for pieces that begin at the given lines and end at `last`. */
  ghost predicate Lawful(lines: seq<string>, first: nat, last: nat, starts: seq<nat>)
    requires 1 <= first <= last <= |lines|
    decreases |starts|
  {
    starts == [] ||
    (first <= starts[0] <= last &&
     if |starts| == 1 then Fits(lines, first, last, starts[0], last)
     else
       && starts[0] < starts[1] <= last
       && Fits(lines, first, last, starts[0], starts[1] - 1)
       && MayBegin(lines, first, last, starts[1])
       && CalledFor(lines, first, last, starts[0], starts[1])
       && Lawful(lines, first, last, starts[1..]))
  }

  lemma LawfulCons(lines: seq<string>, first: nat, last: nat, a: nat, rest: seq<nat>)
    requires 1 <= first <= a <= last <= |lines| && Lawful(lines, first, last, rest)
    requires rest == [] ==> Fits(lines, first, last, a, last)
    requires rest != [] ==>
               && a < rest[0] <= last
               && Fits(lines, first, last, a, rest[0] - 1)
               && MayBegin(lines, first, last, rest[0])
               && CalledFor(lines, first, last, a, rest[0])
    ensures Lawful(lines, first, last, [a] + rest)
  {
    hide Fits, MayBegin, CalledFor;
    assert ([a] + rest)[1..] == rest;
  }

  // ----- gaps between blocks -----

  lemma {:induction false} TextIsInBlocks(lines: seq<string>, first: nat, ln: nat, last: nat, x: nat)
    requires 1 <= first <= ln <= x <= last <= |lines| && !IsSeparator(lines, first, x)
    ensures exists k :: 0 <= k < |Blocks(lines, first, ln, last)| &&
                        Blocks(lines, first, ln, last)[k].0 <= x <= Blocks(lines, first, ln, last)[k].1
    decreases last - ln
  {
    hide IsSeparator, Blocks, RunEnd;
    var blocks := Blocks(lines, first, ln, last);
    if IsSeparator(lines, first, ln) {
      BlocksAtSeparator(lines, first, ln, last);
      TextIsInBlocks(lines, first, ln + 1, last, x);
    } else {
      var t := RunEnd(lines, first, ln, last);
      BlocksAtText(lines, first, ln, last);
      if x <= t {
        assert blocks[0].0 <= x <= blocks[0].1;
      } else {
        TextIsInBlocks(lines, first, t + 1, last, x);
        var rest := Blocks(lines, first, t + 1, last);
        var k :| 0 <= k < |rest| && rest[k].0 <= x <= rest[k].1;
        assert blocks[k + 1] == rest[k];
      }
    }
  }

  /** First line of block k, or the line after the body when there is no such block. */
  function BlockStart(blocks: seq<Range>, k: nat, last: nat): nat {
    if k < |blocks| then blocks[k].0 else last + 1
  }

  /** Nothing but separators from block k's end to the next block. */
  lemma GapAfterBlock(lines: seq<string>, first: nat, last: nat, k: nat)
    requires 1 <= first <= last <= |lines| && k < |Blocks(lines, first, first, last)|
    ensures var blocks := Blocks(lines, first, first, last);
            && IsBlock(lines, first, last, blocks[k])
            && blocks[k].1 < BlockStart(blocks, k + 1, last)
            && forall x :: blocks[k].1 < x < BlockStart(blocks, k + 1, last) ==> IsSeparator(lines, first, x)
  {
    hide IsSeparator, Blocks, IsBlock;
    var blocks := Blocks(lines, first, first, last);
    RunBlocksInOrder(lines, first, first, last);
    BlocksAreExactly(lines, first, first, last, blocks[k]);
    assert blocks[k] in blocks;
    forall x | blocks[k].1 < x < BlockStart(blocks, k + 1, last)
      ensures IsSeparator(lines, first, x)
    {
      if !IsSeparator(lines, first, x) {
        TextIsInBlocks(lines, first, first, last, x);
        assert false;
      }
    }
  }

  lemma GapBeforeBlocks(lines: seq<string>, first: nat, last: nat)
    requires 1 <= first <= last <= |lines|
    ensures forall x :: first <= x < BlockStart(Blocks(lines, first, first, last), 0, last) ==>
              IsSeparator(lines, first, x)
  {
    hide IsSeparator, Blocks;
    var blocks := Blocks(lines, first, first, last);
    RunBlocksInOrder(lines, first, first, last);
    forall x | first <= x < BlockStart(blocks, 0, last)
      ensures IsSeparator(lines, first, x)
    {
      if !IsSeparator(lines, first, x) {
        TextIsInBlocks(lines, first, first, last, x);
        assert false;
      }
    }
  }

  /** A block takes a bin's text from its own first line to the next block's. */
  lemma TextGrowsByBlock(lines: seq<string>, first: nat, last: nat, k: nat, a: nat)
    requires 1 <= first <= last <= |lines| && k < |Blocks(lines, first, first, last)|
    requires first <= a <= Blocks(lines, first, first, last)[k].0
    ensures var blocks := Blocks(lines, first, first, last);
            var b := blocks[k];
            && b.1 < BlockStart(blocks, k + 1, last) <= last + 1
            && TextLen(lines, first, a, b.1) == TextLen(lines, first, a, b.0 - 1) + RawCharLen(lines, b.0, b.1)
            && TextLen(lines, first, a, BlockStart(blocks, k + 1, last) - 1) == TextLen(lines, first, a, b.1)
  {
    hide IsSeparator, Blocks, TextLen, RawCharLen;
    var blocks := Blocks(lines, first, first, last);
    var b := blocks[k];
    GapAfterBlock(lines, first, last, k);
    TextLenSplits(lines, first, a, b.0 - 1, b.1);
    TextLenOfText(lines, first, b.0, b.1);
    TextLenSplits(lines, first, a, b.1, BlockStart(blocks, k + 1, last) - 1);
    TextLenOfGap(lines, first, b.1 + 1, BlockStart(blocks, k + 1, last) - 1);
  }

  /** A block start other than the first line of the body may begin a piece. */
  lemma BlockStartMayBegin(lines: seq<string>, first: nat, last: nat, b: Range)
    requires 1 <= first <= last <= |lines| && IsBlock(lines, first, last, b) && first < b.0
    ensures MayBegin(lines, first, last, b.0)
  {
  }

  lemma BlockRunEnd(lines: seq<string>, first: nat, last: nat, b: Range, t: nat)
    requires 1 <= first <= last <= |lines| && IsBlock(lines, first, last, b) && b.0 <= t <= b.1
    ensures RunEnd(lines, first, t, last) == b.1
  {
    hide IsSeparator;
    RunEndIs(lines, first, t, b.1, last);
  }

  // ----- the cuts are lawful -----

  /** The pieces of a giant block, followed by lawful pieces that begin at the next block. */
  lemma {:induction false} HardSplitLawful(lines: seq<string>, first: nat, last: nat, k: nat, h: nat, rest: seq<nat>)
    requires 1 <= first <= last <= |lines| && k < |Blocks(lines, first, first, last)|
    requires var blocks := Blocks(lines, first, first, last);
             && IsGiant(lines, blocks[k]) && blocks[k].0 <= h <= blocks[k].1
             && (rest == [] <==> k + 1 == |blocks|)
             && (rest != [] ==> rest[0] == blocks[k + 1].0)
    requires Lawful(lines, first, last, rest)
    ensures Lawful(lines, first, last, Starts(HardSplit(lines, h, Blocks(lines, first, first, last)[k].1)) + rest)
    decreases last - h
  {
    hide IsSeparator, Blocks, TextLen, RawCharLen, Lawful, GreedyEnd, IsBlock, Fits, IsGiant;
    var blocks := Blocks(lines, first, first, last);
    var b := blocks[k];
    var t := GreedyEnd(lines, h, h, b.1);
    var tail := if t == b.1 then rest else Starts(HardSplit(lines, t + 1, b.1)) + rest;
    GapAfterBlock(lines, first, last, k);
    assert IsGiantBlock(lines, first, last, b);
    HardPieceFits(lines, first, last, k, h);
    if t < b.1 {
      HardSplitLawful(lines, first, last, k, t + 1, rest);
      assert MayBegin(lines, first, last, t + 1);
      HardCutCalledFor(lines, first, last, b, h);
    } else if rest != [] {
      NextBlockCalledFor(lines, first, last, k, h);
    }
    LawfulCons(lines, first, last, h, tail);
    assert Starts(HardSplit(lines, h, b.1)) + rest == [h] + tail;
  }

  /** A piece that ends with a giant block ends there rightly. */
  lemma NextBlockCalledFor(lines: seq<string>, first: nat, last: nat, k: nat, h: nat)
    requires 1 <= first <= last <= |lines| && k + 1 < |Blocks(lines, first, first, last)|
    requires var b := Blocks(lines, first, first, last)[k];
             IsGiant(lines, b) && b.0 <= h <= b.1
    ensures var t := Blocks(lines, first, first, last)[k + 1].0;
            first <= h < t <= last && MayBegin(lines, first, last, t) && CalledFor(lines, first, last, h, t)
  {
    hide IsSeparator, Blocks, TextLen, RawCharLen, IsBlock, IsGiant;
    var blocks := Blocks(lines, first, first, last);
    GapAfterBlock(lines, first, last, k);
    GapAfterBlock(lines, first, last, k + 1);
    assert IsGiantBlock(lines, first, last, blocks[k]);
    BlockStartMayBegin(lines, first, last, blocks[k + 1]);
    BlockStartIsBelowSeparator(lines, first, last, blocks[k + 1]);
  }

  lemma BlockStartIsBelowSeparator(lines: seq<string>, first: nat, last: nat, b: Range)
    requires 1 <= first <= last <= |lines| && IsBlock(lines, first, last, b) && first < b.0
    ensures IsSeparator(lines, first, b.0 - 1)
  {
    hide IsSeparator;
  }

  lemma {:induction false} GreedyEndStops(lines: seq<string>, first: nat, to: nat, last: nat)
    requires 1 <= first <= to <= last <= |lines|
    ensures var t := GreedyEnd(lines, first, to, last);
            t < last ==> SPLIT_CHARS < RawCharLen(lines, first, t + 1)
    decreases last - to
  {
    hide RawCharLen;
    if to < last && RawCharLen(lines, first, to + 1) <= SPLIT_CHARS {
      GreedyEndStops(lines, first, to + 1, last);
    }
  }

  /** A cut inside a block comes where one more line would not have fitted. */
  lemma HardCutCalledFor(lines: seq<string>, first: nat, last: nat, b: Range, h: nat)
    requires 1 <= first <= last <= |lines| && IsBlock(lines, first, last, b) && b.0 <= h <= b.1
    requires GreedyEnd(lines, h, h, b.1) < b.1
    ensures var t := GreedyEnd(lines, h, h, b.1) + 1;
            CalledFor(lines, first, last, h, t)
  {
    hide IsSeparator, TextLen, RawCharLen, GreedyEnd;
    var t := GreedyEnd(lines, h, h, b.1) + 1;
    GreedyEndStops(lines, h, h, b.1);
    TextLenOfText(lines, first, h, t);
    assert !IsSeparator(lines, first, t - 1);
  }

  lemma RunEndReaches(lines: seq<string>, first: nat, last: nat, t: nat)
    requires 1 <= first <= t <= last <= |lines|
    ensures t <= RunEnd(lines, first, t, last)
  {
  }

  /** One piece of a giant block, up to the next piece or the next block, fits. */
  lemma HardPieceFits(lines: seq<string>, first: nat, last: nat, k: nat, h: nat)
    requires 1 <= first <= last <= |lines| && k < |Blocks(lines, first, first, last)|
    requires Blocks(lines, first, first, last)[k].0 <= h <= Blocks(lines, first, first, last)[k].1
    ensures var blocks := Blocks(lines, first, first, last);
            var b := blocks[k];
            var t := GreedyEnd(lines, h, h, b.1);
            Fits(lines, first, last, h, if t == b.1 then BlockStart(blocks, k + 1, last) - 1 else t)
  {
    hide IsSeparator, Blocks, TextLen, RawCharLen, GreedyEnd, IsOneSmallBlock;
    var blocks := Blocks(lines, first, first, last);
    var b := blocks[k];
    var t := GreedyEnd(lines, h, h, b.1);
    var end := if t == b.1 then BlockStart(blocks, k + 1, last) - 1 else t;
    GapAfterBlock(lines, first, last, k);
    GreedyEndAdmissible(lines, h, h, b.1);
    if h == t {
      assert IsOnlyText(lines, first, h, end, h);
    } else {
      TextLenOfText(lines, first, h, t);
      TextLenSplits(lines, first, h, t, end);
      TextLenOfGap(lines, first, t + 1, end);
    }
  }

  /** Characters in the bin that is open at line p, if one is, before block k. */
  function BinChars(lines: seq<string>, first: nat, last: nat, k: nat, p: Option<nat>): Option<nat>
    requires 1 <= first <= last <= |lines| && (p.Some? ==> first <= p.value)
  {
    var blocks := Blocks(lines, first, first, last);
    if p.Some? then Some(TextLen(lines, first, p.value, BlockStart(blocks, k, last) - 1)) else None
  }

  ghost predicate BinFits(lines: seq<string>, first: nat, last: nat, a: nat, b: nat)
    requires 1 <= first <= a && b <= last <= |lines|
  {
    && TextLen(lines, first, a, b) < HARD_SPLIT_CHARS
    && (TextLen(lines, first, a, b) <= SPLIT_CHARS || IsOneSmallBlock(lines, first, last, a, b))
  }

  ghost predicate BinIsOpen(lines: seq<string>, first: nat, last: nat, k: nat, p: Option<nat>)
    requires 1 <= first <= last <= |lines|
  {
    p.Some? ==>
      && first <= p.value < BlockStart(Blocks(lines, first, first, last), k, last) <= last + 1
      && BinFits(lines, first, last, p.value, BlockStart(Blocks(lines, first, first, last), k, last) - 1)
  }

  /** The open bin goes no further: a lawful piece of its own, in front of lawful pieces. */
  lemma BinIsLawful(lines: seq<string>, first: nat, last: nat, k: nat, p: Option<nat>, rest: seq<nat>)
    requires 1 <= first <= last <= |lines| && k < |Blocks(lines, first, first, last)|
    requires BinIsOpen(lines, first, last, k, p) && Lawful(lines, first, last, rest)
    requires var b := Blocks(lines, first, first, last)[k];
             && rest != [] && rest[0] == b.0
             && (p.Some? ==> IsGiant(lines, b)
                             || SPLIT_CHARS < BinChars(lines, first, last, k, p).value + RawCharLen(lines, b.0, b.1))
    ensures Lawful(lines, first, last, BinStarts(p) + rest)
  {
    hide IsSeparator, Blocks, TextLen, RawCharLen, Lawful, IsBlock, RunEnd, MayBegin, IsGiant, IsOneSmallBlock;
    if p.Some? {
      var b := Blocks(lines, first, first, last)[k];
      GapAfterBlock(lines, first, last, k);
      TextGrowsByBlock(lines, first, last, k, p.value);
      BlockStartMayBegin(lines, first, last, b);
      BlockRunEnd(lines, first, last, b, b.0);
      BlockStartIsBelowSeparator(lines, first, last, b);
      assert IsGiant(lines, b) ==> IsGiantBlock(lines, first, last, b);
      LawfulCons(lines, first, last, p.value, rest);
    } else {
      assert [] + rest == rest;
    }
  }

  /** The bin takes in block k, or a new bin is opened for it. */
  lemma BinGrows(lines: seq<string>, first: nat, last: nat, k: nat, p: Option<nat>)
    requires 1 <= first <= last <= |lines| && k < |Blocks(lines, first, first, last)|
    requires BinIsOpen(lines, first, last, k, p) && !IsGiant(lines, Blocks(lines, first, first, last)[k])
    ensures var b := Blocks(lines, first, first, last)[k];
            var blen := RawCharLen(lines, b.0, b.1);
            && BinIsOpen(lines, first, last, k + 1, Some(b.0))
            && BinChars(lines, first, last, k + 1, Some(b.0)) == Some(blen)
            && (p.Some? && BinChars(lines, first, last, k, p).value + blen <= SPLIT_CHARS ==>
                  && BinIsOpen(lines, first, last, k + 1, p)
                  && BinChars(lines, first, last, k + 1, p) == Some(BinChars(lines, first, last, k, p).value + blen))
  {
    hide IsSeparator, Blocks, TextLen, RawCharLen, IsBlock, IsOneSmallBlock;
    GapAfterBlock(lines, first, last, k);
    TextGrowsByBlock(lines, first, last, k, Blocks(lines, first, first, last)[k].0);
    BlockAlone(lines, first, last, k);
    if p.Some? {
      TextGrowsByBlock(lines, first, last, k, p.value);
    }
  }

  lemma BlockAlone(lines: seq<string>, first: nat, last: nat, k: nat)
    requires 1 <= first <= last <= |lines| && k < |Blocks(lines, first, first, last)|
    requires !IsGiant(lines, Blocks(lines, first, first, last)[k])
    ensures var blocks := Blocks(lines, first, first, last);
            && RawCharLen(lines, blocks[k].0, blocks[k].1) < HARD_SPLIT_CHARS
            && blocks[k].0 < BlockStart(blocks, k + 1, last) <= last + 1
            && TextLen(lines, first, blocks[k].0, blocks[k].0 - 1) == 0
            && IsOneSmallBlock(lines, first, last, blocks[k].0, BlockStart(blocks, k + 1, last) - 1)
  {
    hide IsSeparator, Blocks, IsBlock, RawCharLen;
    GapAfterBlock(lines, first, last, k);
    var b := Blocks(lines, first, first, last)[k];
    assert IsBlock(lines, first, last, b) && !IsGiant(lines, b);
  }

  /** The last bin ends with the body. */
  lemma LastBinIsLawful(lines: seq<string>, first: nat, last: nat, k: nat, p: Option<nat>)
    requires 1 <= first <= last <= |lines| && k == |Blocks(lines, first, first, last)|
    requires BinIsOpen(lines, first, last, k, p)
    ensures Lawful(lines, first, last, BinStarts(p) + [])
  {
    hide Blocks, TextLen, Lawful, MayBegin, CalledFor, IsOneSmallBlock;
    LawfulNil(lines, first, last);
    if p.Some? {
      LawfulCons(lines, first, last, p.value, []);
    } else {
      assert [] + BinStarts(p) == [];
    }
  }

  /** A giant block is cut by lines, and the cuts go on after it. */
  lemma GiantIsLawful(lines: seq<string>, first: nat, last: nat, k: nat, rest: seq<nat>)
    requires 1 <= first <= last <= |lines| && k < |Blocks(lines, first, first, last)|
    requires IsGiant(lines, Blocks(lines, first, first, last)[k])
    requires rest == Cuts(lines, Blocks(lines, first, first, last), k + 1, None) && Lawful(lines, first, last, rest)
    ensures var b := Blocks(lines, first, first, last)[k];
            var cuts := Starts(HardSplit(lines, b.0, b.1)) + rest;
            cuts != [] && cuts[0] == b.0 && Lawful(lines, first, last, cuts)
  {
    hide IsSeparator, Blocks, RawCharLen, Lawful, IsGiant, Cuts, HardSplit;
    var blocks := Blocks(lines, first, first, last);
    NoCutsLeft(lines, blocks, k + 1);
    CutsBeginAt(lines, blocks, k + 1);
    HardSplitLawful(lines, first, last, k, blocks[k].0, rest);
  }

  lemma CutsBeginAt(lines: seq<string>, blocks: seq<Range>, k: nat)
    requires InLines(lines, blocks) && k <= |blocks|
    ensures k < |blocks| ==> Cuts(lines, blocks, k, None) != [] && Cuts(lines, blocks, k, None)[0] == blocks[k].0
  {
    hide Cuts;
  }

  /** The cuts from block k on, with the bin that is open at line p if there is one. */
  lemma {:induction false} CutsLawful(lines: seq<string>, first: nat, last: nat, k: nat, p: Option<nat>)
    requires 1 <= first <= last <= |lines| && k <= |Blocks(lines, first, first, last)|
    requires BinIsOpen(lines, first, last, k, p)
    ensures var blocks, chars := Blocks(lines, first, first, last), BinChars(lines, first, last, k, p);
            Lawful(lines, first, last, BinStarts(p) + Cuts(lines, blocks, k, chars))
    decreases |Blocks(lines, first, first, last)| - k
  {
    hide Blocks, RawCharLen, Lawful, HardSplit, Cuts, Starts, BinChars, BinStarts, IsGiant, BlockStart, TextLen;
    var blocks, chars := Blocks(lines, first, first, last), BinChars(lines, first, last, k, p);
    CutsCases(lines, blocks, k, chars);
    if k == |blocks| {
      LastBinIsLawful(lines, first, last, k, p);
    } else {
      var b := blocks[k];
      var rest := Cuts(lines, blocks, k, chars);
      NoBin(lines, first, last, k + 1);
      if IsGiant(lines, b) {
        CutsLawful(lines, first, last, k + 1, None);
        GiantIsLawful(lines, first, last, k, Cuts(lines, blocks, k + 1, None));
        BinIsLawful(lines, first, last, k, p, rest);
      } else {
        BinGrows(lines, first, last, k, p);
        BinCharsIff(lines, first, last, k, p);
        if p.Some? && chars.value + RawCharLen(lines, b.0, b.1) <= SPLIT_CHARS {
          CutsLawful(lines, first, last, k + 1, p);
        } else {
          CutsLawful(lines, first, last, k + 1, Some(b.0));
          OneBin(b.0);
          BinIsLawful(lines, first, last, k, p, rest);
        }
      }
    }
  }

  lemma NoBin(lines: seq<string>, first: nat, last: nat, k: nat)
    requires 1 <= first <= last <= |lines|
    ensures BinIsOpen(lines, first, last, k, None) && BinChars(lines, first, last, k, None) == None
    ensures forall rest: seq<nat> :: BinStarts(None) + rest == rest
  {
    assert forall rest: seq<nat> :: [] + rest == rest;
  }

  lemma BinCharsIff(lines: seq<string>, first: nat, last: nat, k: nat, p: Option<nat>)
    requires 1 <= first <= last <= |lines| && (p.Some? ==> first <= p.value)
    ensures BinChars(lines, first, last, k, p).Some? <==> p.Some?
  {
  }

  lemma OneBin(start: nat)
    ensures BinStarts(Some(start)) == [start]
  {
  }

  lemma LawfulNil(lines: seq<string>, first: nat, last: nat)
    requires 1 <= first <= last <= |lines|
    ensures Lawful(lines, first, last, [])
  {
  }

  lemma NoCutsLeft(lines: seq<string>, blocks: seq<Range>, k: nat)
    requires InLines(lines, blocks) && k <= |blocks|
    ensures Cuts(lines, blocks, k, None) == [] <==> k == |blocks|
  {
    hide RawCharLen, HardSplit;
  }

  /** Leading separators change none of the laws, so the first piece may begin at the first line of the body. */
  lemma LawfulFromFirstLine(lines: seq<string>, first: nat, last: nat, starts: seq<nat>)
    requires 1 <= first <= last <= |lines| && starts != [] && Lawful(lines, first, last, starts)
    requires forall x :: first <= x < starts[0] ==> IsSeparator(lines, first, x)
    ensures Lawful(lines, first, last, [first] + starts[1..])
  {
    hide IsSeparator, TextLen, RunEnd, MayBegin, Fits;
    var moved := [first] + starts[1..];
    assert moved[1..] == starts[1..];
    var end := if |starts| == 1 then last else starts[1] - 1;
    TextLenSplits(lines, first, first, starts[0] - 1, end);
    TextLenOfGap(lines, first, first, starts[0] - 1);
    FitsFromFirstLine(lines, first, last, starts[0], end);
    if 1 < |starts| {
      RunEndReaches(lines, first, last, starts[1]);
      TextLenSplits(lines, first, first, starts[0] - 1, starts[1]);
      var to := RunEnd(lines, first, starts[1], last);
      TextLenSplits(lines, first, first, starts[0] - 1, to);
    }
  }

  lemma FitsFromFirstLine(lines: seq<string>, first: nat, last: nat, a: nat, end: nat)
    requires 1 <= first <= a <= end + 1 && end <= last <= |lines| && Fits(lines, first, last, a, end)
    requires forall x :: first <= x < a ==> IsSeparator(lines, first, x)
    ensures Fits(lines, first, last, first, end)
  {
    hide IsSeparator, TextLen, IsBlock, IsGiant;
    TextLenSplits(lines, first, first, a - 1, end);
    TextLenOfGap(lines, first, first, a - 1);
    if x: nat :| IsOnlyText(lines, first, a, end, x) {
      assert IsOnlyText(lines, first, first, end, x);
    }
  }

  ghost predicate LawfulPiece(lines: seq<string>, first: nat, last: nat, p: Range)
    requires 1 <= first <= last <= |lines|
  {
    first <= p.0 <= p.1 <= last && Fits(lines, first, last, p.0, p.1)
  }

  ghost predicate LawfulBoundary(lines: seq<string>, first: nat, last: nat, p: Range, q: Range)
    requires 1 <= first <= last <= |lines|
  {
    && first <= p.0 < q.0 <= last
    && p.1 + 1 == q.0
    && MayBegin(lines, first, last, q.0)
    && (Blocks(lines, first, first, last) != [] ==> CalledFor(lines, first, last, p.0, q.0))
  }

  lemma {:induction false} LawfulMeaning(lines: seq<string>, first: nat, last: nat, starts: seq<nat>)
    requires 1 <= first <= last <= |lines| && Lawful(lines, first, last, starts)
    ensures var r := Ranges(starts, last);
            && (forall i :: 0 <= i < |r| ==> LawfulPiece(lines, first, last, r[i]))
            && (forall i :: 0 <= i < |r| - 1 ==> LawfulBoundary(lines, first, last, r[i], r[i + 1]))
    decreases |starts|
  {
    hide Fits, MayBegin, CalledFor, Blocks;
    if 1 < |starts| {
      LawfulMeaning(lines, first, last, starts[1..]);
      var r, rest := Ranges(starts, last), Ranges(starts[1..], last);
      assert r == [(starts[0], starts[1] - 1)] + rest;
      assert LawfulBoundary(lines, first, last, r[0], rest[0]);
      assert LawfulPiece(lines, first, last, r[0]);
      hide LawfulBoundary, LawfulPiece;
    }
  }

  lemma {:induction false} TextLenIsLess(lines: seq<string>, first: nat, a: nat, b: nat)
    requires 1 <= first <= a && b <= |lines|
    ensures TextLen(lines, first, a, b) <= RawCharLen(lines, a, b)
    decreases b
  {
    hide IsSeparator;
    if a <= b {
      TextLenIsLess(lines, first, a, b - 1);
    }
  }

  /**
   * Size and structure of the pieces of any non-empty section body.  The text
   * in each piece is within the limits, unless it is one line or one block; each
   * boundary is just below a separator or inside a giant block; and, unless the
   * body is all separators, no piece could have gone on, with the block after it
   * or inside a giant block with the next line.
   */
  lemma PiecesAreLawful(lines: seq<string>, first: nat, last: nat)
    requires 1 <= first <= last <= |lines|
    ensures var r := SplitOf(lines, first, last);
            && (forall i :: 0 <= i < |r| ==> LawfulPiece(lines, first, last, r[i]))
            && (forall i :: 0 <= i < |r| - 1 ==> LawfulBoundary(lines, first, last, r[i], r[i + 1]))
  {
    hide IsSeparator, TextLen, RawCharLen, Lawful, IsBlock, Blocks, Cuts, LawfulBoundary, LawfulPiece;
    if RawCharLen(lines, first, last) <= SPLIT_CHARS {
      SmallBodyFits(lines, first, last);
    } else if Blocks(lines, first, first, last) == [] {
      BlankBodyIsLawful(lines, first, last);
    } else {
      var cuts := Cuts(lines, Blocks(lines, first, first, last), 0, None);
      NoBin(lines, first, last, 0);
      CutsLawful(lines, first, last, 0, None);
      assert BinStarts(None) + cuts == cuts;
      GapBeforeBlocks(lines, first, last);
      LawfulFromFirstLine(lines, first, last, cuts);
      LawfulMeaning(lines, first, last, [first] + cuts[1..]);
    }
  }

  lemma SmallBodyFits(lines: seq<string>, first: nat, last: nat)
    requires 1 <= first <= last <= |lines| && RawCharLen(lines, first, last) <= SPLIT_CHARS
    ensures LawfulPiece(lines, first, last, (first, last))
  {
    TextLenIsLess(lines, first, first, last);
  }

  /** A body of separators alone is one piece, unless it is so large that it is cut by lines. */
  lemma BlankBodySplits(lines: seq<string>, first: nat, last: nat)
    requires 1 <= first <= last <= |lines| && Blocks(lines, first, first, last) == []
    ensures SplitOf(lines, first, last) ==
              if RawCharLen(lines, first, last) < HARD_SPLIT_CHARS then [(first, last)]
              else HardSplit(lines, first, last)
  {
    hide RawCharLen, Blocks, HardSplit, Cuts, Ranges, Starts, Tiles;
    var blocks: seq<Range> := [(first, last)];
    assert ParagraphBlocksOf(lines, first, last) == blocks;
    CutsCases(lines, blocks, 0, None);
    CutsCases(lines, blocks, 1, None);
    CutsCases(lines, blocks, 1, Some(RawCharLen(lines, first, last)));
    RangesOfOne(first, last);
    var cuts := Cuts(lines, blocks, 0, None);
    if IsGiant(lines, (first, last)) {
      HardSplitTiles(lines, first, last);
      StartsOfTiles(HardSplit(lines, first, last), first, last);
      assert cuts == Starts(HardSplit(lines, first, last));
      assert [first] + cuts[1..] == cuts;
    } else {
      assert cuts == [first];
      assert [first] + cuts[1..] == [first];
    }
  }

  lemma RangesOfOne(first: nat, last: nat)
    ensures Ranges([first], last) == [(first, last)]
  {
  }

  lemma StartsOfTiles(ranges: seq<Range>, first: nat, last: nat)
    requires Tiles(ranges, first, last)
    ensures Starts(ranges) != [] && Starts(ranges)[0] == first
    ensures Ranges(Starts(ranges), last) == ranges
  {
    var r := Ranges(Starts(ranges), last);
    forall k | 0 <= k < |r|
      ensures r[k] == ranges[k]
    {
      if k + 1 < |r| {
        assert ranges[k].1 + 1 == ranges[k + 1].0;
      }
    }
  }

  /** In a body of separators alone any tiling is lawful. */
  lemma BlankBodyIsLawful(lines: seq<string>, first: nat, last: nat)
    requires 1 <= first <= last <= |lines| && Blocks(lines, first, first, last) == []
    ensures var r := SplitOf(lines, first, last);
            && (forall i :: 0 <= i < |r| ==> LawfulPiece(lines, first, last, r[i]))
            && (forall i :: 0 <= i < |r| - 1 ==> LawfulBoundary(lines, first, last, r[i], r[i + 1]))
  {
    hide IsSeparator, TextLen, Blocks, SplitOf;
    var r := SplitOf(lines, first, last);
    SplitTiles(lines, first, last);
    TilesStayInside(r, first, last);
    GapBeforeBlocks(lines, first, last);
    forall i | 0 <= i < |r|
      ensures LawfulPiece(lines, first, last, r[i])
    {
      TextLenOfGap(lines, first, r[i].0, r[i].1);
    }
  }

  lemma SeparatorClosesFences(lines: seq<string>, first: nat, t: nat)
    requires 1 <= first < t <= |lines| && IsSeparator(lines, first, t - 1)
    ensures IsBlankLine(lines, t - 1) && FenceBefore(lines, first - 1, t - 1) == None
  {
    hide Trim, FenceOpen;
  }

  /** Every piece but the first begins just below a blank line and outside every fence, or inside a giant block. */
  lemma BoundariesAvoidFences(lines: seq<string>, first: nat, last: nat, i: nat)
    requires 1 <= first <= last <= |lines| && 0 < i < |SplitOf(lines, first, last)|
    ensures var t := SplitOf(lines, first, last)[i].0;
            && first < t <= last
            && (|| (IsBlankLine(lines, t - 1) && FenceBefore(lines, first - 1, t - 1) == None)
                || exists b: Range :: IsGiantBlock(lines, first, last, b) && b.0 < t <= b.1)
  {
    hide SplitOf, IsSeparator, FenceBefore, IsGiantBlock, CalledFor, Blocks, IsBlankLine, LawfulPiece;
    PiecesAreLawful(lines, first, last);
    var r := SplitOf(lines, first, last);
    assert LawfulBoundary(lines, first, last, r[i - 1], r[i]);
    if IsSeparator(lines, first, r[i].0 - 1) {
      SeparatorClosesFences(lines, first, r[i].0);
    }
  }
}
