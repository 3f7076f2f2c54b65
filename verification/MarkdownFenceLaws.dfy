// What fenced code is in a whole document, said of the text of its lines: which
// lines begin and end it, and that no heading is found in it.
module MarkdownFenceLaws {
  import opened Basics
  import opened Text
  import opened MarkdownLines
  import opened MarkdownFences
  import opened MarkdownScan
  import opened MarkdownElide
  import opened MarkdownSplit

  /** Line ln begins, but for white space, with exactly `len` marks, three or more. */
  predicate BeginsWithMarks(lines: seq<string>, ln: nat, mark: char, len: nat)
    requires 1 <= ln <= |lines|
  {
    var t := Trim(lines[ln - 1]);
    && (mark == '`' || mark == '~')
    && 3 <= len <= |t|
    && (forall k :: 0 <= k < len ==> t[k] == mark)
    && (len < |t| ==> t[len] != mark)
  }

  /** Line ln is, but for white space, nothing but marks, at least `len` of them. */
  predicate IsMarksOnly(lines: seq<string>, ln: nat, mark: char, len: nat)
    requires 1 <= ln <= |lines|
  {
    var t := Trim(lines[ln - 1]);
    len <= |t| && forall k :: 0 <= k < |t| ==> t[k] == mark
  }

  /** A fence: from a line that begins with marks to the next that has only marks, as many; or to the last line. */
  predicate IsFenceFrom(lines: seq<string>, s: Range, last: nat, mark: char, len: nat)
    requires 1 <= s.0 <= s.1 <= last <= |lines|
  {
    && BeginsWithMarks(lines, s.0, mark, len)
    && (forall x :: s.0 < x < s.1 ==> !IsMarksOnly(lines, x, mark, len))
    && (s.1 == last || (s.0 < s.1 && IsMarksOnly(lines, s.1, mark, len)))
  }

  lemma OpenerBegins(lines: seq<string>, ln: nat, mark: char, len: nat)
    requires 1 <= ln <= |lines|
    ensures BeginsWithMarks(lines, ln, mark, len) <==> FenceOpen(Trim(lines[ln - 1])) == Some(Fence(mark, len))
  {
    hide Trim, FenceOpen;
    FenceOpenExactly(Trim(lines[ln - 1]), Fence(mark, len));
  }

  lemma CloserIsMarks(lines: seq<string>, ln: nat, mark: char, len: nat)
    requires 1 <= ln <= |lines| && (mark == '`' || mark == '~') && 3 <= len
    ensures IsMarksOnly(lines, ln, mark, len) <==> IsFenceClose(Trim(lines[ln - 1]), Fence(mark, len))
  {
    hide Trim, IsFenceClose;
    FenceCloseIsPureRun(lines[ln - 1], Fence(mark, len));
  }

  /** The spans of the look-ahead are fences in this sense, one after the other, and no other line begins one. */
  lemma {:induction false} SpansAreFences(lines: seq<string>, i: nat, last: nat)
    requires 1 <= i <= last + 1 <= |lines| + 1
    ensures var spans := SpansOf(lines, i, last);
            && (forall s :: s in spans ==> exists mark: char, len: nat :: IsFenceFrom(lines, s, last, mark, len))
            && (forall j, k :: 0 <= j < k < |spans| ==> spans[j].1 < spans[k].0)
            && forall ln :: i <= ln <= last && !InSpans(spans, ln) ==>
                 forall mark: char, len: nat :: !BeginsWithMarks(lines, ln, mark, len)
    decreases last + 1 - i
  {
    hide SpansOf, SpanAt, HeadOf, InSpans, BeginsWithMarks, IsFenceFrom;
    if last < i {
      SpansPastEnd(lines, last);
    } else {
      var next, head := HeadOf(lines, i, last).1, SpanAt(lines, i, last);
      var rest := SpansOf(lines, next, last);
      SpansAreFences(lines, next, last);
      SpanFirst(lines, i, last);
      HeadIsFence(lines, i, last);
      var spans: seq<Range> := head + rest;
      forall j, k | 0 <= j < k < |spans|
        ensures spans[j].1 < spans[k].0
      {
        if j < |head| {
          assert spans[k] == rest[k - |head|] && rest[k - |head|] in rest;
        }
      }
      forall ln, mark: char, len: nat | i <= ln <= last && !InSpans(head + rest, ln)
        ensures !BeginsWithMarks(lines, ln, mark, len)
      {
        InSpansOfEither(head, rest, ln);
        if ln < next {
          HeadOpens(lines, i, last, ln, mark, len);
        }
      }
    }
  }

  lemma HeadIsFence(lines: seq<string>, i: nat, last: nat)
    requires 1 <= i <= last <= |lines|
    ensures var head := SpanAt(lines, i, last);
            && |head| <= 1
            && (head != [] ==>
                  && head[0] == (i, HeadOf(lines, i, last).1 - 1)
                  && exists mark: char, len: nat :: IsFenceFrom(lines, head[0], last, mark, len))
  {
    hide Trim, FenceOpen, IsFenceClose, FenceItems, IsMarksOnly, BeginsWithMarks;
    if SpanAt(lines, i, last) != [] {
      var fence := FenceOpen(Trim(lines[i - 1])).value;
      var c := FenceEnd(lines, fence, i + 1, last);
      OpenerBegins(lines, i, fence.mark, fence.len);
      forall x: nat | i < x <= last
        ensures IsMarksOnly(lines, x, fence.mark, fence.len) <==> ClosesAt(lines, fence, x)
      {
        CloserIsMarks(lines, x, fence.mark, fence.len);
      }
      assert IsFenceFrom(lines, (i, c), last, fence.mark, fence.len);
    }
  }

  /** A line up to the end of the first fence, or the first line, that is in no span begins no fence. */
  lemma HeadOpens(lines: seq<string>, i: nat, last: nat, ln: nat, mark: char, len: nat)
    requires 1 <= i <= last <= |lines| && i <= ln < HeadOf(lines, i, last).1
    requires !InSpans(SpanAt(lines, i, last), ln)
    ensures !BeginsWithMarks(lines, ln, mark, len)
  {
    hide Trim, FenceOpen, FenceEnd, FenceItems, BeginsWithMarks;
    if FenceOpen(Trim(lines[i - 1])).Some? {
      InHeadSpan(lines, i, last, ln);
      assert false;
    }
    OpenerBegins(lines, ln, mark, len);
  }

  lemma InHeadSpan(lines: seq<string>, i: nat, last: nat, ln: nat)
    requires 1 <= i <= last <= |lines| && i <= ln < HeadOf(lines, i, last).1
    requires FenceOpen(Trim(lines[i - 1])).Some?
    ensures InSpans(SpanAt(lines, i, last), ln)
  {
    hide Trim, FenceOpen, HeadOf;
    assert (i, HeadOf(lines, i, last).1 - 1) in SpanAt(lines, i, last);
  }

  /** What parts paragraphs: a line of white space only, in no fence found from the first line of the body on. */
  lemma SeparatorExactly(lines: seq<string>, first: nat, ln: nat, last: nat)
    requires 1 <= first <= ln <= last <= |lines|
    ensures IsSeparator(lines, first, ln) <==>
              AllWhitespace(lines[ln - 1]) && !InSpans(SpansOf(lines, first, last), ln)
  {
    hide Trim, SpansOf, InSpans, IsFenced;
    TrimsToNothing(lines[ln - 1]);
    LookAheadAgrees(lines, first, last, ln);
  }

  /** The fences of a document's content. */
  function DocumentFences(lines: seq<string>): seq<Range> {
    SpansOf(lines, ContentStart(lines) + 1, |lines|)
  }

  /** A line is fenced for the scanner exactly when it is in one of these fences. */
  lemma FencedIsInFence(lines: seq<string>, ln: nat)
    requires ContentStart(lines) < ln <= |lines|
    ensures IsFenced(lines, ContentStart(lines), ln - 1) <==> InSpans(DocumentFences(lines), ln)
  {
    hide ContentStart, SpansOf, InSpans, IsFenced;
    LookAheadAgrees(lines, ContentStart(lines) + 1, |lines|, ln);
  }

  /** No heading is listed on any line of a fence. */
  lemma NoHeadingInFence(lines: seq<string>, k: nat)
    requires k < |ScanOf(lines).headings|
    ensures !InSpans(DocumentFences(lines), ScanOf(lines).headings[k].line)
  {
    hide ContentStart, FrontMatterTitle, Headings, DocumentFences, InSpans, IsFenced, FenceBefore;
    HeadingsStandOutsideFences(lines, ContentStart(lines), |lines|, k);
    FencedIsInFence(lines, ScanOf(lines).headings[k].line);
  }

  /**
   * From a line that begins with n marks where no fence is open, no heading is listed
   * until a line of nothing but the mark, n times at least, and not on that line
   * either.
   */
  lemma NoHeadingBeforeClose(lines: seq<string>, o: nat, mark: char, len: nat, c: nat, k: nat)
    requires ContentStart(lines) < o <= c <= |lines| && BeginsWithMarks(lines, o, mark, len)
    requires FenceBefore(lines, ContentStart(lines), o - 1) == None
    requires forall x :: o < x < c ==> !IsMarksOnly(lines, x, mark, len)
    requires k < |ScanOf(lines).headings|
    ensures !(o <= ScanOf(lines).headings[k].line <= c)
  {
    hide ContentStart, FrontMatterTitle, Headings, BeginsWithMarks, IsMarksOnly, Trim, FenceOpen, IsFenceClose;
    var from, line := ContentStart(lines), ScanOf(lines).headings[k].line;
    OpenerBegins(lines, o, mark, len);
    HeadingsStandOutsideFences(lines, from, |lines|, k);
    if o < line <= c {
      StaysOpen(lines, from, o, mark, len, line);
    }
  }

  /** Once opened, the fence is open before every line up to its close. */
  lemma {:induction false} StaysOpen(lines: seq<string>, from: nat, o: nat, mark: char, len: nat, x: nat)
    requires from < o < x <= |lines| && FenceBefore(lines, from, o - 1) == None
    requires BeginsWithMarks(lines, o, mark, len) && forall y :: o < y < x ==> !IsMarksOnly(lines, y, mark, len)
    ensures FenceBefore(lines, from, x - 1) == Some(Fence(mark, len))
    decreases x
  {
    hide Trim, FenceOpen, IsFenceClose, IsMarksOnly, FenceBefore;
    OpenerBegins(lines, o, mark, len);
    FenceStep(lines, from, x - 2);
    if o + 1 < x {
      StaysOpen(lines, from, o, mark, len, x - 1);
      CloserIsMarks(lines, x - 1, mark, len);
    }
  }
}
