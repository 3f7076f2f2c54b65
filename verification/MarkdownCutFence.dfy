// A document whose only section is cut inside a fence: sixty lines of code, the
// closing line, and forty-five lines of prose with no blank line anywhere.  The
// second piece begins inside the fence, at line 44.  If that line is ordinary
// code, the elider takes the closing line for an opener, and leaves most of the
// prose out of what is embedded; if it looks like the opener, all is well.
module MarkdownCutFence {
  import opened Basics
  import opened Text
  import opened MarkdownLines
  import opened MarkdownFences
  import opened MarkdownScan
  import opened MarkdownSections
  import opened MarkdownSplit
  import opened MarkdownPieces
  import opened MarkdownElide
  import opened MarkdownChunks
  import opened MarkdownSamples

  /** Line 44: as long as the other code lines, and not the end of the fence. */
  predicate IsCode(code: string) {
    |code| == 60 && Trim(code) == code && !IsFenceClose(code, Fence('`', 3))
  }

  /** Line ln of the document. */
  function LineAt(code: string, ln: nat): string {
    if ln == 1 || ln == 62 then TICKS
    else if ln == 44 then code
    else if ln < 62 then Letters(60)
    else Letters(30)
  }

  function Document(code: string): (lines: seq<string>)
    ensures |lines| == 107 && forall ln :: 1 <= ln <= 107 ==> lines[ln - 1] == LineAt(code, ln)
  {
    seq(107, i requires 0 <= i => LineAt(code, i + 1))
  }

  /** The reader of the whole file is in the fence before lines 2 to 62, and in none elsewhere. */
  lemma {:induction false} FenceStates(code: string, i: nat)
    requires i <= 107 && IsCode(code)
    ensures FenceBefore(Document(code), 0, i) == if 1 <= i < 62 then Some(Fence('`', 3)) else None
  {
    hide Trim, FenceOpen, IsFenceClose, Document, Letters;
    if 0 < i {
      FenceStates(code, i - 1);
      TicksAreFence();
      LettersArePlain(60);
      LettersArePlain(30);
      assert Document(code)[i - 1] == LineAt(code, i);
    }
  }

  lemma {:induction false} NoHeadings(code: string, i: nat)
    requires i <= 107 && IsCode(code)
    ensures Headings(Document(code), 0, i) == []
  {
    hide Trim, FenceOpen, IsFenceClose, Document, Letters, AtxHeading, SetextUnderline, FenceBefore;
    if 0 < i {
      NoHeadings(code, i - 1);
      FenceStates(code, i - 1);
      TicksAreFence();
      LettersArePlain(30);
      assert Document(code)[i - 1] == LineAt(code, i);
      assert HeadingAt(Document(code), 0, i - 1) == None;
    }
  }

  /** The document is one section without a heading. */
  lemma OneSection(code: string)
    requires IsCode(code)
    ensures ContentStart(Document(code)) == 0
    ensures SectionsOf(Document(code)) == [Section([], 1, 107, true)]
  {
    hide Trim, Headings, Document, Letters;
    var lines := Document(code);
    TicksAreFence();
    assert lines[0] == LineAt(code, 1);
    NoHeadings(code, 107);
    assert !IsBlankLine(lines, 1);
    assert HasText(lines, 1, 107);
  }

  // ----- where it is cut -----

  lemma {:induction false} CodeLen(code: string, a: nat, b: nat)
    requires 2 <= a <= b + 1 && b <= 61 && IsCode(code)
    ensures RawCharLen(Document(code), a, b) == 61 * (b + 1 - a)
    decreases b
  {
    hide Document, Letters;
    if a <= b {
      CodeLen(code, a, b - 1);
      assert Document(code)[b - 1] == LineAt(code, b);
    }
  }

  lemma {:induction false} ProseLen(code: string, b: nat)
    requires 62 <= b <= 107
    ensures RawCharLen(Document(code), 63, b) == 31 * (b - 62)
  {
    hide Document, Letters;
    if 62 < b {
      ProseLen(code, b - 1);
      assert Document(code)[b - 1] == LineAt(code, b);
    }
  }

  lemma FirstLines(code: string, b: nat)
    requires 1 <= b <= 61 && IsCode(code)
    ensures RawCharLen(Document(code), 1, b) == 4 + 61 * (b - 1)
  {
    hide Document, Letters;
    RawCharLenSplits(Document(code), 1, 1, b);
    CodeLen(code, 2, b);
    assert Document(code)[0] == LineAt(code, 1);
    assert RawCharLen(Document(code), 1, 0) == 0;
  }

  lemma Sizes(code: string)
    requires IsCode(code)
    ensures RawCharLen(Document(code), 1, 43) <= SPLIT_CHARS < RawCharLen(Document(code), 1, 44)
    ensures RawCharLen(Document(code), 44, 107) <= SPLIT_CHARS
    ensures HARD_SPLIT_CHARS <= RawCharLen(Document(code), 1, 107)
  {
    hide Document, Letters;
    FirstLines(code, 43);
    FirstLines(code, 44);
    CodeLen(code, 44, 61);
    ProseLen(code, 107);
    assert Document(code)[61] == LineAt(code, 62);
    RawCharLenSplits(Document(code), 62, 62, 107);
    assert RawCharLen(Document(code), 62, 61) == 0;
    RawCharLenSplits(Document(code), 44, 61, 107);
    RawCharLenSplits(Document(code), 1, 43, 107);
  }

  lemma NoSeparators(code: string, ln: nat)
    requires 1 <= ln <= 107 && IsCode(code)
    ensures !IsSeparator(Document(code), 1, ln)
  {
    hide Trim, Document, Letters, IsFenced;
    TicksAreFence();
    LettersArePlain(60);
    LettersArePlain(30);
    assert Document(code)[ln - 1] == LineAt(code, ln);
  }

  lemma GreedyEndIs(lines: seq<string>, first: nat, t: nat, last: nat)
    requires 1 <= first <= t <= last <= |lines| && RawCharLen(lines, first, t) <= SPLIT_CHARS
    requires t == last || SPLIT_CHARS < RawCharLen(lines, first, t + 1)
    ensures GreedyEnd(lines, first, first, last) == t
  {
    hide RawCharLen, GreedyEnd;
    var g := GreedyEnd(lines, first, first, last);
    GreedyEndIsFurthest(lines, first, first, t, last);
    if RawCharLen(lines, first, first) <= SPLIT_CHARS {
      GreedyEndAdmissible(lines, first, first, last);
    } else {
      RawCharLenSplits(lines, first, first, t);
    }
    if t < g {
      RawCharLenSplits(lines, first, t + 1, g);
      assert false;
    }
  }

  /** It is cut after line 43, in the middle of the fence. */
  lemma TwoPieces(code: string)
    requires IsCode(code)
    ensures SplitOf(Document(code), 1, 107) == [(1, 43), (44, 107)]
  {
    hide RawCharLen, GreedyEnd, Document, IsSeparator, Blocks;
    var lines := Document(code);
    Sizes(code);
    forall ln | 1 <= ln <= 107
      ensures !IsSeparator(lines, 1, ln)
    {
      NoSeparators(code, ln);
    }
    BlocksOfRun(lines, 1, 1, 107, 107);
    assert Blocks(lines, 1, 108, 107) == [];
    GreedyEndIs(lines, 1, 43, 107);
    GreedyEndIs(lines, 44, 107, 107);
    assert HardSplit(lines, 44, 107) == [(44, 107)];
    assert HardSplit(lines, 1, 107) == [(1, 43), (44, 107)];
    var blocks := ParagraphBlocksOf(lines, 1, 107);
    assert blocks == [(1, 107)];
    assert Cuts(lines, blocks, 1, None) == [];
    assert Cuts(lines, blocks, 0, None) == [1, 44];
  }

  /** Whatever line 44 is, the second piece begins inside the fence. */
  lemma SecondPieceBeginsInFence(code: string)
    requires IsCode(code)
    ensures SectionsOf(Document(code)) == [Section([], 1, 107, true)]
    ensures PiecesOf(Document(code), SectionsOf(Document(code))[0]) == [(1, 43), (44, 107)]
    ensures ContentStart(Document(code)) == 0
    ensures FenceBefore(Document(code), 0, 43) == Some(Fence('`', 3)) && BeginsInFence(Document(code), (44, 107))
  {
    hide Document, FenceBefore, SplitOf, SectionsOf, ContentStart, IsCode;
    OneSection(code);
    TwoPieces(code);
    FenceStates(code, 43);
  }

  // ----- line 44 is ordinary code -----

  function PlainDocument(): (lines: seq<string>)
    ensures |lines| == 107
  {
    Document(Letters(60))
  }

  lemma LettersAreCode()
    ensures IsCode(Letters(60))
  {
    LettersArePlain(60);
  }

  /** Prose stays prose for the elider's search: nothing after line 62 closes the fence it believes in. */
  lemma {:induction false} NoCloseBelow(code: string, j: nat)
    requires 63 <= j <= 108
    ensures FenceEnd(Document(code), Fence('`', 3), j, 107) == 107
    decreases 108 - j
  {
    hide Document, Letters, IsFenceClose, Trim;
    if j <= 107 {
      NoCloseBelow(code, j + 1);
      LettersArePlain(30);
      assert Document(code)[j - 1] == LineAt(code, j);
    }
  }

  lemma SpanOfSecondPiece()
    ensures SpansOf(PlainDocument(), 44, 107) == [(62, 107)]
  {
    hide Document, Letters, Trim, FenceOpen, SpansOf, FenceEnd, ClosesAt;
    var code := Letters(60);
    var lines := Document(code);
    TicksAreFence();
    LettersArePlain(60);
    forall x: nat | 44 <= x < 62
      ensures !LooksLikeOpener(lines, x)
    {
      assert lines[x - 1] == LineAt(code, x);
    }
    SpansSkipText(lines, 44, 62, 107);
    SpanFirst(lines, 62, 107);
    assert lines[61] == LineAt(code, 62);
    NoCloseBelow(code, 63);
    SpansPastEnd(lines, 107);
    assert [(62, 107)] + [] == [(62, 107)];
  }

  /** Line n is outside every fence of the document and still not among what is kept of the second piece. */
  predicate IsLostProse(n: nat)
    requires 44 <= n <= 107
  {
    !IsFenced(PlainDocument(), 0, n - 1) && Line(n) !in ItemsOf(PlainDocument(), 44, 107)
  }

  lemma LostProse(n: nat)
    requires 73 <= n <= 106
    ensures IsLostProse(n)
  {
    hide Document, Letters, Trim, FenceOpen, SpansOf, FenceBefore, ItemsOf, IsCode;
    var code := Letters(60);
    LettersAreCode();
    FenceStates(code, n - 1);
    LettersArePlain(30);
    assert Document(code)[n - 1] == LineAt(code, n);
    SpanOfSecondPiece();
    assert DropsLine((62, 107), n);
    KeptUnlessDropped(PlainDocument(), 44, 107, n);
  }

  /** The second piece begins inside a fence, and thirty-four lines of its prose are left out. */
  lemma ProseIsLeftOut()
    ensures SectionsOf(PlainDocument()) == [Section([], 1, 107, true)]
    ensures PiecesOf(PlainDocument(), SectionsOf(PlainDocument())[0]) == [(1, 43), (44, 107)]
    ensures ContentStart(PlainDocument()) == 0 && BeginsInFence(PlainDocument(), (44, 107))
    ensures forall n: nat :: 73 <= n <= 106 ==> IsLostProse(n)
  {
    hide Document, FenceBefore, SplitOf, SectionsOf, ContentStart, IsLostProse, IsCode;
    LettersAreCode();
    SecondPieceBeginsInFence(Letters(60));
    forall n: nat | 73 <= n <= 106
      ensures IsLostProse(n)
    {
      LostProse(n);
    }
  }

  // ----- line 44 looks like the opener -----

  function OpenerDocument(): (lines: seq<string>)
    ensures |lines| == 107
  {
    Document(TICKS + Letters(57))
  }

  lemma OpenerIsCode()
    ensures IsCode(TICKS + Letters(57)) && FenceOpen(TICKS + Letters(57)) == Some(Fence('`', 3))
  {
    var code := TICKS + Letters(57);
    assert !IsWhitespace('`') && !IsWhitespace('x');
    assert code[0] == '`' && code[59] == Letters(57)[56] && code[3] == Letters(57)[0];
    assert code[..3] == TICKS;
    RunLengthIs(code, '`', 3);
    assert code[3..][0] == 'x';
  }

  /** The second piece begins inside the same fence, and still the elider reads all of it right. */
  lemma OpenerLikeLineAgrees()
    ensures SectionsOf(OpenerDocument()) == [Section([], 1, 107, true)]
    ensures PiecesOf(OpenerDocument(), SectionsOf(OpenerDocument())[0]) == [(1, 43), (44, 107)]
    ensures ContentStart(OpenerDocument()) == 0 && BeginsInFence(OpenerDocument(), (44, 107))
    ensures forall n: nat :: 44 <= n <= 107 ==> EliderAgrees(OpenerDocument(), (44, 107), n)
  {
    hide Document, FenceBefore, SplitOf, SectionsOf, ContentStart, EliderAgrees, Trim, FenceOpen, IsFenceClose;
    var code := TICKS + Letters(57);
    OpenerIsCode();
    SecondPieceBeginsInFence(code);
    assert OpenerDocument()[43] == LineAt(code, 44);
    forall n: nat | 44 <= n <= 107
      ensures EliderAgrees(OpenerDocument(), (44, 107), n)
    {
      SameOpenerAgrees(OpenerDocument(), (44, 107), n);
    }
  }
}
