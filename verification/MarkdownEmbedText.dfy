// The text of a chunk, said of the lines of the file: the header line, and then
// what is shown of each line of the chunk's piece.
module MarkdownEmbedText {
  import opened Basics
  import opened Text
  import opened MarkdownLines
  import opened MarkdownFences
  import opened MarkdownScan
  import opened MarkdownSections
  import opened MarkdownSplit
  import opened MarkdownPieces
  import opened MarkdownElide
  import opened MarkdownAnchors
  import opened MarkdownText
  import opened MarkdownTitle
  import opened MarkdownChunks

  // ----- what is shown of a line -----

  /** The long fence that line n is left out of. */
  function DroppedBy(spans: seq<Range>, n: nat): (r: Option<Range>)
    ensures r.Some? ==> r.value in spans && DropsLine(r.value, n)
    ensures r == None ==> !IsDropped(spans, n)
  {
    if spans == [] then None
    else if DropsLine(spans[0], n) then Some(spans[0])
    else DroppedBy(spans[1..], n)
  }

  function ShownLine(lines: seq<string>, spans: seq<Range>, n: nat): string
    requires 1 <= n <= |lines|
  {
    Shown(lines, DroppedBy(spans, n), n)
  }

  /** Line n itself; or, for the first line left out of a fence, how many are left out; or nothing. */
  function Shown(lines: seq<string>, dropped: Option<Range>, n: nat): string
    requires 1 <= n <= |lines| && (dropped.Some? ==> DropsLine(dropped.value, n))
  {
    match dropped
    case None => lines[n - 1] + "\n"
    case Some(s) => if n == s.0 + 11 then "\U{2026} (" + Decimal(s.1 - s.0 - 11) + " more lines elided)\n" else ""
  }

  function ShownLines(lines: seq<string>, spans: seq<Range>, a: nat, b: nat): string
    requires 1 <= a && b <= |lines|
    decreases b
  {
    if b < a then "" else ShownLines(lines, spans, a, b - 1) + ShownLine(lines, spans, b)
  }

  lemma {:induction false} ShownSplits(lines: seq<string>, spans: seq<Range>, a: nat, m: nat, b: nat)
    requires 1 <= a <= m + 1 && m <= b <= |lines|
    ensures ShownLines(lines, spans, a, b) == ShownLines(lines, spans, a, m) + ShownLines(lines, spans, m + 1, b)
    decreases b
  {
    hide ShownLine;
    if m < b {
      ShownSplits(lines, spans, a, m, b - 1);
    }
  }

  /** Fences elsewhere do not matter. */
  lemma {:induction false} OthersDoNotDrop(a: seq<Range>, b: seq<Range>, n: nat)
    ensures !IsDropped(b, n) ==> DroppedBy(a + b, n) == DroppedBy(a, n)
    ensures !IsDropped(a, n) ==> DroppedBy(a + b, n) == DroppedBy(b, n)
  {
    hide DropsLine;
    if a == [] {
      assert a + b == b;
    } else {
      assert (a + b)[1..] == a[1..] + b && a[0] in a && forall s :: s in a[1..] ==> s in a;
      OthersDoNotDrop(a[1..], b, n);
    }
  }

  lemma {:induction false} ShownBySame(lines: seq<string>, x: seq<Range>, y: seq<Range>, a: nat, b: nat)
    requires 1 <= a && b <= |lines|
    requires forall n :: a <= n <= b ==> DroppedBy(x, n) == DroppedBy(y, n)
    ensures ShownLines(lines, x, a, b) == ShownLines(lines, y, a, b)
    decreases b
  {
    hide DroppedBy, ShownLine;
    if a <= b {
      ShownBySame(lines, x, y, a, b - 1);
      OneShownSame(lines, x, y, b);
    }
  }

  lemma OneShownSame(lines: seq<string>, x: seq<Range>, y: seq<Range>, n: nat)
    requires 1 <= n <= |lines| && DroppedBy(x, n) == DroppedBy(y, n)
    ensures ShownLine(lines, x, n) == ShownLine(lines, y, n)
  {
    hide DroppedBy, Shown;
  }

  // ----- the items show just that -----

  lemma {:induction false} WrittenJoins(a: seq<string>, b: seq<string>)
    ensures Written(a + b, "\n") == Written(a, "\n") + Written(b, "\n")
  {
    if a == [] {
      assert a + b == b;
    } else {
      assert (a + b)[1..] == a[1..] + b;
      WrittenJoins(a[1..], b);
    }
  }

  lemma WrittenOne(line: string)
    ensures Written([line], "\n") == line + "\n"
  {
  }

  lemma {:induction false} LineItemsShow(lines: seq<string>, spans: seq<Range>, a: nat, b: nat)
    requires 1 <= a <= b + 1 && b <= |lines| && forall n :: a <= n <= b ==> DroppedBy(spans, n) == None
    ensures Renderable(lines, LineItems(a, b))
    ensures Written(RenderAll(lines, LineItems(a, b)), "\n") == ShownLines(lines, spans, a, b)
    decreases b
  {
    hide Written, DroppedBy;
    if b < a {
      NothingWritten();
      assert RenderAll(lines, LineItems(a, b)) == [];
    } else {
      LineItemsShow(lines, spans, a, b - 1);
      assert RenderAll(lines, LineItems(a, b)) == RenderAll(lines, LineItems(a, b - 1)) + [lines[b - 1]];
      WrittenJoins(RenderAll(lines, LineItems(a, b - 1)), [lines[b - 1]]);
      WrittenOne(lines[b - 1]);
    }
  }

  lemma NothingWritten()
    ensures Written([], "\n") == ""
  {
  }

  lemma {:induction false} NothingShown(lines: seq<string>, s: Range, a: nat, b: nat)
    requires 1 <= a && b <= |lines| && s.0 + 11 < a && b < s.1 && 40 <= s.1 - s.0 + 1
    ensures ShownLines(lines, [s], a, b) == ""
    decreases b
  {
    if a <= b {
      NothingShown(lines, s, a, b - 1);
      assert DropsLine(s, b);
    }
  }

  lemma LongFenceShows(lines: seq<string>, a: nat, b: nat)
    requires 1 <= a <= b <= |lines| && 40 <= b - a + 1
    ensures Renderable(lines, FenceItems(a, b))
    ensures Written(RenderAll(lines, FenceItems(a, b)), "\n") == ShownLines(lines, [(a, b)], a, b)
  {
    hide Written, Decimal, ShownLines, ShownLine, LineItems, FenceItems, RenderAll, Renderable, DroppedBy, DropsLine;
    var spans := [(a, b)];
    TopIsKept(a, b);
    FenceRendered(lines, a, b);
    var marker := "\U{2026} (" + Decimal(b - a - 11) + " more lines elided)";
    var top, tail := RenderAll(lines, LineItems(a, a + 10)), [marker, lines[b - 1]];
    LineItemsShow(lines, spans, a, a + 10);
    WrittenJoins(top, tail);
    assert tail == [marker] + [lines[b - 1]];
    WrittenJoins([marker], [lines[b - 1]]);
    WrittenOne(marker);
    WrittenOne(lines[b - 1]);
    ShownSplits(lines, spans, a, a + 10, b);
    ShownSplits(lines, spans, a + 11, a + 11, b);
    ShownSplits(lines, spans, a + 12, b - 1, b);
    NothingShown(lines, (a, b), a + 12, b - 1);
    MarkerShown(lines, a, b);
  }

  lemma TopIsKept(a: nat, b: nat)
    requires 40 <= b - a + 1
    ensures forall n: nat :: n <= a + 10 ==> DroppedBy([(a, b)], n) == None
  {
  }

  lemma FenceRendered(lines: seq<string>, a: nat, b: nat)
    requires 1 <= a <= b <= |lines| && 40 <= b - a + 1
    ensures Renderable(lines, LineItems(a, a + 10)) && Renderable(lines, FenceItems(a, b))
    ensures RenderAll(lines, FenceItems(a, b)) ==
              RenderAll(lines, LineItems(a, a + 10))
              + ["\U{2026} (" + Decimal(b - a - 11) + " more lines elided)", lines[b - 1]]
  {
    hide Decimal;
  }

  lemma MarkerShown(lines: seq<string>, a: nat, b: nat)
    requires 1 <= a <= b <= |lines| && 40 <= b - a + 1
    ensures ShownLines(lines, [(a, b)], a + 11, a + 11) ==
              "\U{2026} (" + Decimal(b - a - 11) + " more lines elided)" + "\n"
    ensures ShownLines(lines, [(a, b)], b, b) == lines[b - 1] + "\n"
  {
    hide Decimal;
    assert DropsLine((a, b), a + 11) && !DropsLine((a, b), b);
    assert ShownLines(lines, [(a, b)], a + 11, a + 10) == "" && ShownLines(lines, [(a, b)], b, b - 1) == "";
  }

  /** The first line, or the fence that begins there, is rendered as it is shown. */
  lemma HeadShows(lines: seq<string>, i: nat, last: nat)
    requires 1 <= i <= last <= |lines|
    ensures var (head, next) := HeadOf(lines, i, last);
            && Renderable(lines, head)
            && Written(RenderAll(lines, head), "\n") == ShownLines(lines, SpanAt(lines, i, last), i, next - 1)
  {
    hide Trim, FenceOpen, FenceEnd, ClosesAt, FenceItems, Written, ShownLines;
    var (head, next) := HeadOf(lines, i, last);
    if FenceOpen(Trim(lines[i - 1])) == None {
      LineItemsShow(lines, [], i, i);
      assert LineItems(i, i) == [Line(i)];
    } else if 40 <= next - i {
      LongFenceShows(lines, i, next - 1);
    } else {
      LineItemsShow(lines, [(i, next - 1)], i, next - 1);
      ShortFence(i, next - 1);
    }
  }

  lemma ShortFence(a: nat, b: nat)
    requires a <= b && b - a + 1 < 40
    ensures FenceItems(a, b) == LineItems(a, b)
  {
  }

  /** The elided items of a range, one below the other, are what is shown of its lines. */
  lemma {:induction false} ItemsShow(lines: seq<string>, i: nat, last: nat)
    requires 1 <= i <= last + 1 <= |lines| + 1
    ensures Renderable(lines, ItemsOf(lines, i, last))
    ensures Written(RenderAll(lines, ItemsOf(lines, i, last)), "\n")
         == ShownLines(lines, SpansOf(lines, i, last), i, last)
    decreases last + 1 - i
  {
    hide ItemsOf, HeadOf, SpansOf, SpanAt, Written, ShownLines, Render;
    ItemsRenderable(lines, i, last);
    if last < i {
      NoItemsPastEnd(lines, last);
      NothingWritten();
      assert RenderAll(lines, ItemsOf(lines, i, last)) == [];
      NothingToShow(lines, SpansOf(lines, i, last), i, last);
    } else {
      var (head, next) := HeadOf(lines, i, last);
      var rest, spans := ItemsOf(lines, next, last), SpansOf(lines, i, last);
      HeadFirst(lines, i, last);
      SpanFirst(lines, i, last);
      HeadShows(lines, i, last);
      ItemsShow(lines, next, last);
      assert RenderAll(lines, head + rest) == RenderAll(lines, head) + RenderAll(lines, rest);
      WrittenJoins(RenderAll(lines, head), RenderAll(lines, rest));
      ShownSplits(lines, spans, i, next - 1, last);
      ShownApart(lines, i, last);
    }
  }

  lemma NothingToShow(lines: seq<string>, spans: seq<Range>, a: nat, b: nat)
    requires 1 <= a && b <= |lines| && b < a
    ensures ShownLines(lines, spans, a, b) == ""
  {
  }

  /** The fence that begins at line i, and those after it, are shown independently. */
  lemma ShownApart(lines: seq<string>, i: nat, last: nat)
    requires 1 <= i <= last <= |lines|
    ensures var next, spans := HeadOf(lines, i, last).1, SpansOf(lines, i, last);
            && ShownLines(lines, spans, i, next - 1) == ShownLines(lines, SpanAt(lines, i, last), i, next - 1)
            && ShownLines(lines, spans, next, last) == ShownLines(lines, SpansOf(lines, next, last), next, last)
  {
    hide ShownLines, HeadOf, SpansOf, DroppedBy, DropsLine;
    var next, head := HeadOf(lines, i, last).1, SpanAt(lines, i, last);
    var rest := SpansOf(lines, next, last);
    SpanFirst(lines, i, last);
    forall n: nat | i <= n <= next - 1
      ensures DroppedBy(head + rest, n) == DroppedBy(head, n)
    {
      NothingDroppedOutside(lines, next, last, n);
      OthersDoNotDrop(head, rest, n);
    }
    forall n: nat | next <= n <= last
      ensures DroppedBy(head + rest, n) == DroppedBy(rest, n)
    {
      HeadDropsWithin(lines, i, last, n);
      OthersDoNotDrop(head, rest, n);
    }
    ShownBySame(lines, head + rest, head, i, next - 1);
    ShownBySame(lines, head + rest, rest, next, last);
  }

  lemma HeadDropsWithin(lines: seq<string>, i: nat, last: nat, n: nat)
    requires 1 <= i <= last <= |lines|
    ensures IsDropped(SpanAt(lines, i, last), n) ==> n < HeadOf(lines, i, last).1
  {
    hide HeadOf, FenceOpen, Trim;
  }

  // ----- the body of a piece -----

  lemma {:induction false} JoinedIsWritten(parts: seq<string>)
    requires parts != []
    ensures Written(parts, "\n") == Join(parts, "\n") + "\n"
  {
    if |parts| == 1 {
      WrittenOne(parts[0]);
      assert parts == [parts[0]];
    } else {
      JoinedIsWritten(parts[1..]);
    }
  }

  lemma {:induction false} TrimEndOfNewline(s: string)
    ensures TrimEnd(s + "\n") == TrimEnd(s)
  {
    assert (s + "\n")[..|s|] == s && IsWhitespace('\n');
  }

  /** A final line feed makes no difference to trimming. */
  lemma {:induction false} TrimOfNewline(s: string)
    ensures Trim(s + "\n") == Trim(s)
  {
    hide IsWhitespace, TrimEnd;
    if s == "" {
      assert s + "\n" == "\n";
      NewlineIsBlank();
    } else if IsWhitespace(s[0]) {
      assert (s + "\n")[1..] == s[1..] + "\n";
      TrimOfNewline(s[1..]);
    } else {
      TrimEndOfNewline(s);
    }
  }

  lemma NewlineIsBlank()
    ensures Trim("\n") == "" == Trim("")
  {
    assert "\n"[1..] == "" && IsWhitespace('\n');
  }

  lemma BodyShows(lines: seq<string>, first: nat, last: nat)
    requires 1 <= first && last <= |lines|
    ensures var spans := if last < first then [] else SpansOf(lines, first, last);
            BodyOf(lines, first, last) == Trim(ShownLines(lines, spans, first, last))
  {
    hide Trim, Join, Written, ItemsOf, ShownLines, SpansOf, RenderAll, Renderable;
    NewlineIsBlank();
    if last < first {
      NothingToShow(lines, [], first, last);
    } else {
      ItemsShow(lines, first, last);
      ItemsRenderable(lines, first, last);
      var parts := RenderAll(lines, ItemsOf(lines, first, last));
      SomeItems(lines, first, last);
      JoinedIsWritten(parts);
      TrimOfNewline(Join(parts, "\n"));
    }
  }

  lemma SomeItems(lines: seq<string>, first: nat, last: nat)
    requires 1 <= first <= last <= |lines|
    ensures Renderable(lines, ItemsOf(lines, first, last)) && RenderAll(lines, ItemsOf(lines, first, last)) != []
  {
    hide ItemsOf, Render;
    ItemsRenderable(lines, first, last);
    ItemsAccountForRange(lines, first, last);
  }

  // ----- chunks -----

  /** The pieces of a section's body, which begins below its heading if it has one. */
  function BodyPieces(lines: seq<string>, s: Section): (r: seq<Range>)
    requires 1 <= s.lineStart <= s.lineEnd <= |lines|
    ensures forall k :: 0 <= k < |r| ==> 1 <= r[k].0 && r[k].1 <= |lines|
  {
    var first := if s.isPreamble then s.lineStart else s.lineStart + 1;
    SplitStaysInside(lines, first, s.lineEnd);
    SplitOf(lines, first, s.lineEnd)
  }

  /**
   * Every chunk, field by field: it is piece p of section i.  Its anchor is the
   * slug of the trail with the two numbers; its text is the header line and what
   * is shown of the lines of the piece, trimmed as a whole.
   */
  lemma ChunkIs(alnum: Alphanumeric, file: File, lines: seq<string>, x: nat) returns (i: nat, p: nat)
    requires x < |ChunksOf(alnum, file, lines)|
    ensures i < |SectionsOf(lines)| && x == |FirstChunks(alnum, file, lines, i)| + p
    ensures var s := SectionsOf(lines)[i];
            1 <= s.lineStart <= s.lineEnd <= |lines| && p < |BodyPieces(lines, s)|
    ensures var s, chunk := SectionsOf(lines)[i], ChunksOf(alnum, file, lines)[x];
            var (a, b) := BodyPieces(lines, s)[p];
            var count := Ordinal(Bases(alnum, SectionsOf(lines)), i);
            var shown := Trim(ShownLines(lines, if b < a then [] else SpansOf(lines, a, b), a, b));
            && chunk.anchor == (if s.isPreamble then "_preamble" else SlugTrail(alnum, s.trail))
                               + (if count == 1 then "" else "~" + Decimal(count))
                               + (if p == 0 then "" else "#" + Decimal(p + 1))
            && chunk.lineStart == (if p == 0 then s.lineStart else a)
            && chunk.lineEnd == b
            && chunk.embedText == "doc: " + TitleOf(ScanOf(lines), file)
                                  + (if s.trail == [] then "" else " > " + Join(s.trail, " > "))
                                  + " | path: " + file.path
                                  + (if shown == "" then "" else "\n" + shown)
  {
    hide ChunksUpTo, SectionsOf, SplitOf, BodyOf, TitleOf, Join, ShownLines, SpansOf, Trim, Decimal;
    hide SlugTrail, Ordinal, EmbedText, Header, SectionAnchor, PieceAnchor;
    var labels, sections := LabelsOf(file, lines), SectionsOf(lines);
    DocumentSectionsFit(lines);
    i, p := ChunkFrom(alnum, labels, lines, sections, |sections|, x);
    var s := sections[i];
    var (a, b) := BodyPieces(lines, s)[p];
    BodyShows(lines, a, b);
    AnchorForm(BaseAnchor(alnum, s), Ordinal(Bases(alnum, sections), i), p);
    TextForm(labels, s.trail, BodyOf(lines, a, b));
  }

  lemma AnchorForm(base: string, count: nat, p: nat)
    ensures PieceAnchor(SectionAnchor(base, count), p) ==
              base + (if count == 1 then "" else "~" + Decimal(count)) + (if p == 0 then "" else "#" + Decimal(p + 1))
  {
    hide Decimal;
    assert base + "" + "" == base;
  }

  lemma TextForm(labels: Labels, trail: seq<string>, body: string)
    ensures EmbedText(Header(labels.title, labels.path, trail), body) ==
              "doc: " + labels.title + (if trail == [] then "" else " > " + Join(trail, " > "))
              + " | path: " + labels.path + (if body == "" then "" else "\n" + body)
  {
    hide Join;
    var header := Header(labels.title, labels.path, trail);
    assert header + "" == header && header + ("\n" + body) == header + "\n" + body;
  }

  /** Where chunk x comes from, and all of it. */
  lemma {:induction false} ChunkFrom(alnum: Alphanumeric, labels: Labels, lines: seq<string>, sections: seq<Section>,
        n: nat, x: nat)
    returns (i: nat, p: nat)
    requires SectionsFit(lines, sections) && n <= |sections| && x < |ChunksUpTo(alnum, labels, lines, sections, n)|
    ensures i < n && x == |ChunksUpTo(alnum, labels, lines, sections, i)| + p
    ensures 1 <= sections[i].lineStart <= sections[i].lineEnd <= |lines| && p < |PiecesOf(lines, sections[i])|
    ensures ChunksUpTo(alnum, labels, lines, sections, n)[x] ==
              ChunkOfPiece(labels, lines, sections[i], AnchorAt(alnum, sections, i), PiecesOf(lines, sections[i]), p)
  {
    hide SectionChunks, AnchorAt, ChunkOfPiece, PiecesOf, SectionsFit;
    if x < |ChunksUpTo(alnum, labels, lines, sections, n - 1)| {
      i, p := ChunkFrom(alnum, labels, lines, sections, n - 1, x);
    } else {
      i, p := n - 1, x - |ChunksUpTo(alnum, labels, lines, sections, n - 1)|;
      SectionFits(lines, sections, i);
      SectionChunkAt(labels, lines, sections[i], AnchorAt(alnum, sections, i));
    }
  }

  // ----- what can be read in the text -----

  predicate IsAt(text: string, w: string, at: nat) {
    at + |w| <= |text| && text[at..at + |w|] == w
  }

  /** The words occur in the text one after the other. */
  ghost predicate InOrder(words: seq<string>, text: string)
    decreases |words|
  {
    words == [] ||
    exists at: nat :: IsAt(text, words[|words| - 1], at) && InOrder(words[..|words| - 1], text[..at])
  }

  lemma LastWordAt(words: seq<string>, text: string) returns (at: nat)
    requires InOrder(words, text) && words != []
    ensures IsAt(text, words[|words| - 1], at) && InOrder(words[..|words| - 1], text[..at])
  {
    at :| IsAt(text, words[|words| - 1], at) && InOrder(words[..|words| - 1], text[..at]);
  }

  lemma OneMoreWord(words: seq<string>, text: string, at: nat)
    requires words != [] && IsAt(text, words[|words| - 1], at) && InOrder(words[..|words| - 1], text[..at])
    ensures InOrder(words, text)
  {
  }

  lemma {:induction false} InOrderBefore(words: seq<string>, head: string, text: string)
    requires InOrder(words, text)
    ensures InOrder(words, head + text)
    decreases |words|
  {
    hide InOrder;
    if words == [] {
      NoWords(head + text);
    } else {
      var at := LastWordAt(words, text);
      InOrderBefore(words[..|words| - 1], head, text[..at]);
      StillAt(head, text, "", words[|words| - 1], at);
      assert head + text + "" == head + text;
      OneMoreWord(words, head + text, |head| + at);
    }
  }

  lemma StillAt(head: string, text: string, tail: string, w: string, at: nat)
    requires IsAt(text, w, at)
    ensures IsAt(head + text + tail, w, |head| + at) && (head + text + tail)[..|head| + at] == head + text[..at]
  {
    var all, k := head + text + tail, |head| + at;
    assert all[k..k + |w|] == text[at..at + |w|];
  }

  lemma InOrderAfter(words: seq<string>, text: string, tail: string)
    requires InOrder(words, text)
    ensures InOrder(words, text + tail)
  {
    hide InOrder, IsAt;
    if words == [] {
      NoWords(text + tail);
    } else {
      var at := LastWordAt(words, text);
      StillAt("", text, tail, words[|words| - 1], at);
      assert "" + text + tail == text + tail && "" + text[..at] == text[..at];
      OneMoreWord(words, text + tail, at);
    }
  }

  lemma InOrderSnoc(words: seq<string>, text: string, w: string, line: string, k: nat)
    requires InOrder(words, text) && IsAt(line, w, k)
    ensures InOrder(words + [w], text + line)
  {
    hide InOrder;
    InOrderAfter(words, text, line[..k]);
    StillAt(text, line, "", w, k);
    assert text + line + "" == text + line && (words + [w])[..|words|] == words;
    OneMoreWord(words + [w], text + line, |text| + k);
  }

  /** Not empty, with no white space at either end. */
  predicate IsWord(w: string) {
    w != "" && !IsWhitespace(w[0]) && !IsWhitespace(w[|w| - 1])
  }

  predicate AllWords(words: seq<string>) {
    forall k :: 0 <= k < |words| ==> IsWord(words[k])
  }

  /** A word does not reach into the white space around a text. */
  lemma {:induction false} InOrderTrimmed(words: seq<string>, text: string)
    requires InOrder(words, text) && AllWords(words)
    ensures InOrder(words, Trim(text))
  {
    hide IsWhitespace, Trim, InOrder;
    var left, right := TrimIsMiddle(text);
    InOrderWithoutTail(words, text, right);
    InOrderWithoutHead(words, text[..right], left);
    assert text[..right][left..] == text[left..right] && text[..right][..left] == text[..left];
  }

  lemma SpaceAround(text: string, left: nat, right: nat)
    requires left <= right <= |text| && AllWhitespace(text[..left]) && AllWhitespace(text[right..])
    ensures forall j :: 0 <= j < left || right <= j < |text| ==> IsWhitespace(text[j])
  {
    hide IsWhitespace;
    forall j | 0 <= j < left
      ensures IsWhitespace(text[j])
    {
      assert text[..left][j] == text[j];
    }
    forall j | right <= j < |text|
      ensures IsWhitespace(text[j])
    {
      assert text[right..][j - right] == text[j];
    }
  }

  lemma WordInside(text: string, left: nat, right: nat, w: string, at: nat)
    requires left <= right <= |text| && AllWhitespace(text[..left]) && AllWhitespace(text[right..])
    requires IsWord(w) && IsAt(text, w, at)
    ensures left <= at && at + |w| <= right
  {
    hide IsWhitespace, AllWhitespace;
    SpaceAround(text, left, right);
    assert w[0] == text[at] && w[|w| - 1] == text[at + |w| - 1];
  }

  lemma InOrderWithoutTail(words: seq<string>, text: string, n: nat)
    requires n <= |text| && AllWhitespace(text[n..]) && InOrder(words, text) && AllWords(words)
    ensures InOrder(words, text[..n])
  {
    hide InOrder, AllWhitespace, IsWord;
    if words == [] {
      NoWords(text[..n]);
    } else {
      var w := words[|words| - 1];
      var at := LastWordAt(words, text);
      BlankStart(text);
      WordInside(text, 0, n, w, at);
      assert text[..n][at..at + |w|] == w && text[..n][..at] == text[..at];
      OneMoreWord(words, text[..n], at);
    }
  }

  lemma BlankStart(text: string)
    ensures AllWhitespace(text[..0]) && AllWhitespace(text[|text|..])
  {
  }

  lemma {:induction false} InOrderWithoutHead(words: seq<string>, text: string, n: nat)
    requires n <= |text| && AllWhitespace(text[..n]) && InOrder(words, text) && AllWords(words)
    ensures InOrder(words, text[n..])
    decreases |words|
  {
    hide InOrder, AllWhitespace, IsWord;
    if words == [] {
      NoWords(text[n..]);
    } else {
      var w := words[|words| - 1];
      var at := LastWordAt(words, text);
      BlankStart(text);
      WordInside(text, n, |text|, w, at);
      var rest := text[n..];
      assert text[..at][..n] == text[..n] && text[..at][n..] == rest[..at - n];
      InOrderWithoutHead(words[..|words| - 1], text[..at], n);
      assert rest[at - n..at - n + |w|] == text[at..at + |w|];
      OneMoreWord(words, rest, at - n);
    }
  }

  /** What can be read of line n: its text, if any; or how many lines are left out from here. */
  function WordOfLine(lines: seq<string>, spans: seq<Range>, n: nat): (r: seq<string>)
    requires 1 <= n <= |lines|
    ensures |r| <= 1 && AllWords(r)
  {
    match DroppedBy(spans, n)
    case None => if Trim(lines[n - 1]) == "" then [] else [Trim(lines[n - 1])]
    case Some(s) =>
      if n == s.0 + 11 then
        DecimalIsWord(s.1 - s.0 - 11);
        [Decimal(s.1 - s.0 - 11)]
      else []
  }

  lemma DecimalIsWord(n: nat)
    ensures IsWord(Decimal(n))
  {
    var d := Decimal(n);
    assert IsDigit(d[0]) && IsDigit(d[|d| - 1]);
  }

  function WordsOfLines(lines: seq<string>, spans: seq<Range>, a: nat, b: nat): (r: seq<string>)
    requires 1 <= a && b <= |lines|
    ensures AllWords(r)
    decreases b
  {
    if b < a then [] else WordsOfLines(lines, spans, a, b - 1) + WordOfLine(lines, spans, b)
  }

  lemma WordIsShown(lines: seq<string>, spans: seq<Range>, n: nat) returns (k: nat)
    requires 1 <= n <= |lines| && WordOfLine(lines, spans, n) != []
    ensures IsAt(ShownLine(lines, spans, n), WordOfLine(lines, spans, n)[0], k)
  {
    hide Trim, Decimal, DroppedBy, IsAt;
    match DroppedBy(spans, n) {
      case None =>
        var right;
        k, right := TrimIsMiddle(lines[n - 1]);
        MiddleIsAt(lines[n - 1], k, right);
      case Some(s) =>
        k := 3;
        CountIsAt(Decimal(s.1 - s.0 - 11));
    }
  }

  lemma MiddleIsAt(line: string, left: nat, right: nat)
    requires left <= right <= |line|
    ensures IsAt(line + "\n", line[left..right], left)
  {
    assert (line + "\n")[left..right] == line[left..right];
  }

  lemma CountIsAt(d: string)
    ensures IsAt("\U{2026} (" + d + " more lines elided)\n", d, 3)
  {
    var head, tail := "\U{2026} (", " more lines elided)\n";
    assert |head| == 3 && (head + d + tail)[3..3 + |d|] == d;
  }

  lemma {:induction false} WordsAreShown(lines: seq<string>, spans: seq<Range>, a: nat, b: nat)
    requires 1 <= a && b <= |lines|
    ensures InOrder(WordsOfLines(lines, spans, a, b), ShownLines(lines, spans, a, b))
    decreases b
  {
    hide WordOfLine, ShownLine, InOrder, IsAt;
    if b < a {
      NoWords(ShownLines(lines, spans, a, b));
    } else {
      WordsAreShown(lines, spans, a, b - 1);
      var words, text := WordsOfLines(lines, spans, a, b - 1), ShownLines(lines, spans, a, b - 1);
      if WordOfLine(lines, spans, b) == [] {
        InOrderAfter(words, text, ShownLine(lines, spans, b));
        assert words + [] == words;
      } else {
        var k := WordIsShown(lines, spans, b);
        var w := WordOfLine(lines, spans, b)[0];
        InOrderSnoc(words, text, w, ShownLine(lines, spans, b), k);
        assert WordOfLine(lines, spans, b) == [w];
      }
    }
  }

  lemma NoWords(text: string)
    ensures InOrder([], text)
  {
  }

  /**
   * In every chunk's text, after the header line, each line of its piece that no
   * long fence leaves out can be read, trimmed, and so can the number of lines
   * left out of each long fence; all of it in order.
   */
  lemma ChunkHoldsItsLines(alnum: Alphanumeric, file: File, lines: seq<string>, x: nat) returns (i: nat, p: nat)
    requires x < |ChunksOf(alnum, file, lines)|
    ensures i < |SectionsOf(lines)|
    ensures var s := SectionsOf(lines)[i];
            1 <= s.lineStart <= s.lineEnd <= |lines| && p < |BodyPieces(lines, s)|
    ensures var s, text := SectionsOf(lines)[i], ChunksOf(alnum, file, lines)[x].embedText;
            var (a, b) := BodyPieces(lines, s)[p];
            var header := "doc: " + TitleOf(ScanOf(lines), file)
                          + (if s.trail == [] then "" else " > " + Join(s.trail, " > "))
                          + " | path: " + file.path;
            && header <= text
            && InOrder(WordsOfLines(lines, if b < a then [] else SpansOf(lines, a, b), a, b), text[|header|..])
  {
    hide ChunksOf, SectionsOf, BodyPieces, TitleOf, Join, ShownLines, SpansOf, Trim, WordsOfLines, InOrder;
    hide FirstChunks;
    i, p := ChunkIs(alnum, file, lines, x);
    var s := SectionsOf(lines)[i];
    var (a, b) := BodyPieces(lines, s)[p];
    var spans := if b < a then [] else SpansOf(lines, a, b);
    var text, shown := ChunksOf(alnum, file, lines)[x].embedText, ShownLines(lines, spans, a, b);
    var header := "doc: " + TitleOf(ScanOf(lines), file)
                  + (if s.trail == [] then "" else " > " + Join(s.trail, " > "))
                  + " | path: " + file.path;
    var rest := if Trim(shown) == "" then "" else "\n" + Trim(shown);
    assert text == header + rest;
    WordsAreShown(lines, spans, a, b);
    InOrderTrimmed(WordsOfLines(lines, spans, a, b), shown);
    if rest != "" {
      InOrderBefore(WordsOfLines(lines, spans, a, b), "\n", Trim(shown));
    }
    assert text[|header|..] == rest;
  }
}
