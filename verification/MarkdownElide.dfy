// Shortening long code fences in the text that is embedded.  The elider finds
// the end of a fence by searching ahead instead of tracking a state.
module MarkdownElide {
  import opened Basics
  import opened Text
  import opened MarkdownLines
  import opened MarkdownFences
  import opened MarkdownSplit

  const FENCE_ELIDE_THRESHOLD_LINES: nat := 40
  const FENCE_KEEP_LINES: nat := 10

  // One line of output: a line of the file by its number, or a count of lines left out.
  datatype Item = Line(number: nat) | Marker(elided: nat)

  function Render(lines: seq<string>, item: Item): string
    requires item.Line? ==> 1 <= item.number <= |lines|
  {
    match item
    case Line(n) => lines[n - 1]
    case Marker(k) => "\U{2026} (" + Decimal(k) + " more lines elided)"
  }

  predicate Renderable(lines: seq<string>, items: seq<Item>) {
    forall k :: 0 <= k < |items| ==> items[k].Line? ==> 1 <= items[k].number <= |lines|
  }

  function RenderAll(lines: seq<string>, items: seq<Item>): seq<string>
    requires Renderable(lines, items)
  {
    seq(|items|, k requires 0 <= k < |items| => Render(lines, items[k]))
  }

  function LineItems(a: nat, b: nat): (r: seq<Item>)
    requires a <= b + 1
    ensures |r| == b + 1 - a && forall k :: 0 <= k < |r| ==> r[k] == Line(a + k)
  {
    seq(b + 1 - a, k requires 0 <= k => Line(a + k))
  }

  predicate ClosesAt(lines: seq<string>, fence: Fence, ln: nat)
    requires 1 <= ln <= |lines|
  {
    IsFenceClose(Trim(lines[ln - 1]), fence)
  }

  /** The line that closes the fence, searching from line j; the last line if none does. */
  function FenceEnd(lines: seq<string>, fence: Fence, j: nat, last: nat): (c: nat)
    requires 1 <= j <= last + 1 <= |lines| + 1
    ensures j - 1 <= c <= last
    ensures c < last ==> j <= c && ClosesAt(lines, fence, c)
    ensures forall x :: j <= x < c ==> !ClosesAt(lines, fence, x)
    decreases last + 1 - j
  {
    if last < j then last
    else if ClosesAt(lines, fence, j) then j
    else FenceEnd(lines, fence, j + 1, last)
  }

  /** What is left of a fence: all of it, or its opening, ten lines, a count and its last line. */
  function FenceItems(a: nat, b: nat): seq<Item>
    requires a <= b
  {
    if b - a + 1 < FENCE_ELIDE_THRESHOLD_LINES then LineItems(a, b)
    else LineItems(a, a + FENCE_KEEP_LINES) + [Marker(b - a - FENCE_KEEP_LINES - 1), Line(b)]
  }

  /** The items of line i, or of the fence that opens there, and the line after them. */
  function HeadOf(lines: seq<string>, i: nat, last: nat): (r: (seq<Item>, nat))
    requires 1 <= i <= last <= |lines|
    ensures i < r.1 <= last + 1
  {
    match FenceOpen(Trim(lines[i - 1]))
    case None => ([Line(i)], i + 1)
    case Some(fence) =>
      var close := FenceEnd(lines, fence, i + 1, last);
      (FenceItems(i, close), close + 1)
  }

  function ItemsOf(lines: seq<string>, i: nat, last: nat): (r: seq<Item>)
    requires 1 <= i <= last + 1 <= |lines| + 1
    decreases last + 1 - i
  {
    if last < i then []
    else
      var (head, next) := HeadOf(lines, i, last);
      head + ItemsOf(lines, next, last)
  }

  lemma HeadFirst(lines: seq<string>, i: nat, last: nat)
    requires 1 <= i <= last <= |lines|
    ensures ItemsOf(lines, i, last) == HeadOf(lines, i, last).0 + ItemsOf(lines, HeadOf(lines, i, last).1, last)
  {
    hide HeadOf;
  }

  lemma {:induction false} ItemsRenderable(lines: seq<string>, i: nat, last: nat)
    requires 1 <= i <= last + 1 <= |lines| + 1
    ensures Renderable(lines, ItemsOf(lines, i, last))
    decreases last + 1 - i
  {
    hide FenceOpen, Trim, FenceEnd, ClosesAt;
    if i <= last {
      ItemsRenderable(lines, HeadOf(lines, i, last).1, last);
    }
  }

  method ElidedItems(lines: seq<string>, first: nat, last: nat) returns (out: seq<Item>)
    requires 1 <= first <= last <= |lines|
    ensures out == ItemsOf(lines, first, last)
  {
    hide Trim, FenceOpen, FenceEnd, ClosesAt, FenceItems, Renderable, ItemsOf;
    out := [];
    var i := first;
    while i <= last
      invariant first <= i <= last + 1
      invariant out + ItemsOf(lines, i, last) == ItemsOf(lines, first, last)
      decreases last + 1 - i
    {
      HeadFirst(lines, i, last);
      var opener := FenceOpen(Trim(lines[i - 1]));
      if opener.Some? {
        var close := FindClose(lines, opener.value, i + 1, last);
        var items := KeepFence(i, close);
        out := out + items;
        i := close + 1;
      } else {
        out := out + [Line(i)];
        i := i + 1;
      }
    }
    assert ItemsOf(lines, last + 1, last) == [] by { NoItemsPastEnd(lines, last); }
  }

  lemma NoItemsPastEnd(lines: seq<string>, last: nat)
    requires last <= |lines|
    ensures ItemsOf(lines, last + 1, last) == []
  {
  }

  /** The search for the closing line; the end of the range stands in for a missing one. */
  method FindClose(lines: seq<string>, fence: Fence, from: nat, last: nat) returns (close: nat)
    requires 1 <= from <= last + 1 <= |lines| + 1
    ensures close == FenceEnd(lines, fence, from, last)
  {
    var found: Option<nat> := None;
    var j := from;
    while j <= last
      invariant from <= j <= last + 1
      invariant FenceEnd(lines, fence, from, last) == FenceEnd(lines, fence, j, last)
      invariant found == None
    {
      if IsFenceClose(Trim(lines[j - 1]), fence) {
        found := Some(j);
        break;
      }
      j := j + 1;
    }
    close := if found.Some? then found.value else last;
  }

  /** The lines kept of the fence `i..close`. */
  method KeepFence(i: nat, close: nat) returns (out: seq<Item>)
    requires 1 <= i <= close
    ensures out == FenceItems(i, close)
  {
    var fenceLines := close - i + 1;
    out := [Line(i)];
    var keepEnd :=
      if fenceLines >= FENCE_ELIDE_THRESHOLD_LINES then Min(i + FENCE_KEEP_LINES, SaturatingSub(close, 1))
      else SaturatingSub(close, 1);
    var k := i + 1;
    while k <= keepEnd
      invariant i + 1 <= k <= Max(keepEnd, i) + 1
      invariant out == LineItems(i, k - 1)
    {
      out := out + [Line(k)];
      k := k + 1;
    }
    if fenceLines >= FENCE_ELIDE_THRESHOLD_LINES {
      var elided := SaturatingSub(SaturatingSub(close, 1), keepEnd);
      if elided > 0 {
        out := out + [Marker(elided)];
      }
    }
    if close > i {
      out := out + [Line(close)];
    }
  }

  function BodyOf(lines: seq<string>, first: nat, last: nat): string
    requires 1 <= first && last <= |lines|
  {
    if last < first then ""
    else
      ItemsRenderable(lines, first, last);
      Trim(Join(RenderAll(lines, ItemsOf(lines, first, last)), "\n"))
  }

  method ElidedBody(lines: seq<string>, first: nat, last: nat) returns (body: string)
    requires 1 <= first && last <= |lines|
    ensures body == BodyOf(lines, first, last)
  {
    if first > last {
      return "";
    }
    var out := ElidedItems(lines, first, last);
    ItemsRenderable(lines, first, last);
    body := Trim(Join(RenderAll(lines, out), "\n"));
  }

  // ----- lines are conserved -----

  /** Walking through the items, each line follows the one before it and each marker skips as many lines as it says. */
  function Account(items: seq<Item>, from: nat): Option<nat>
  {
    if items == [] then Some(from)
    else
      match items[0]
      case Line(n) => if n == from then Account(items[1..], from + 1) else None
      case Marker(k) => Account(items[1..], from + k)
  }

  lemma {:induction false} AccountJoins(a: seq<Item>, b: seq<Item>, from: nat)
    requires Account(a, from).Some?
    ensures Account(a + b, from) == Account(b, Account(a, from).value)
  {
    if a == [] {
      assert a + b == b;
    } else {
      assert (a + b)[1..] == a[1..] + b;
      AccountJoins(a[1..], b, if a[0].Line? then from + 1 else from + a[0].elided);
    }
  }

  lemma {:induction false} AccountOfLines(a: nat, b: nat)
    requires a <= b + 1
    ensures Account(LineItems(a, b), a) == Some(b + 1)
    decreases b + 1 - a
  {
    if a <= b {
      assert LineItems(a, b)[1..] == LineItems(a + 1, b);
      AccountOfLines(a + 1, b);
    }
  }

  /** A long fence becomes thirteen items; its marker counts exactly what was dropped. */
  lemma FenceItemsAccount(a: nat, b: nat)
    requires a <= b
    ensures Account(FenceItems(a, b), a) == Some(b + 1)
    ensures b - a + 1 >= FENCE_ELIDE_THRESHOLD_LINES ==> |FenceItems(a, b)| == 13
    ensures b - a + 1 < FENCE_ELIDE_THRESHOLD_LINES ==> |FenceItems(a, b)| == b - a + 1
  {
    if b - a + 1 < FENCE_ELIDE_THRESHOLD_LINES {
      AccountOfLines(a, b);
    } else {
      var tail := [Marker(b - a - FENCE_KEEP_LINES - 1), Line(b)];
      AccountOfLines(a, a + FENCE_KEEP_LINES);
      AccountJoins(LineItems(a, a + FENCE_KEEP_LINES), tail, a);
      assert tail[1..] == [Line(b)] && [Line(b)][1..] == [];
      assert Account([Line(b)], b) == Some(b + 1);
      assert FenceItems(a, b) == LineItems(a, a + FENCE_KEEP_LINES) + tail;
    }
  }

  /** The output accounts for the whole range, in order, each line once. */
  lemma {:induction false} ItemsAccountForRange(lines: seq<string>, i: nat, last: nat)
    requires 1 <= i <= last + 1 <= |lines| + 1
    ensures Account(ItemsOf(lines, i, last), i) == Some(last + 1)
    decreases last + 1 - i
  {
    hide ItemsOf, HeadOf, Renderable;
    if last < i {
      NoItemsPastEnd(lines, last);
    } else {
      var (head, next) := HeadOf(lines, i, last);
      HeadFirst(lines, i, last);
      HeadAccounts(lines, i, last);
      ItemsAccountForRange(lines, next, last);
      AccountJoins(head, ItemsOf(lines, next, last), i);
    }
  }

  lemma HeadAccounts(lines: seq<string>, i: nat, last: nat)
    requires 1 <= i <= last <= |lines|
    ensures Account(HeadOf(lines, i, last).0, i) == Some(HeadOf(lines, i, last).1)
  {
    hide Trim, FenceOpen, FenceEnd, ClosesAt, FenceItems;
    var opener := FenceOpen(Trim(lines[i - 1]));
    if opener.Some? {
      FenceItemsAccount(i, FenceEnd(lines, opener.value, i + 1, last));
    } else {
      assert [Line(i)][1..] == [];
    }
  }

  // ----- the look-ahead agrees with the state machine -----

  /** The fence that opens on line i, if one does. */
  function SpanAt(lines: seq<string>, i: nat, last: nat): seq<Range>
    requires 1 <= i <= last <= |lines|
  {
    if FenceOpen(Trim(lines[i - 1])).Some? then [(i, HeadOf(lines, i, last).1 - 1)] else []
  }

  /** Fences as the look-ahead finds them. */
  function SpansOf(lines: seq<string>, i: nat, last: nat): (r: seq<Range>)
    requires 1 <= i <= last + 1 <= |lines| + 1
    ensures forall s :: s in r ==> i <= s.0 <= s.1 <= last
    decreases last + 1 - i
  {
    if last < i then [] else SpanAt(lines, i, last) + SpansOf(lines, HeadOf(lines, i, last).1, last)
  }

  predicate InSpans(spans: seq<Range>, n: nat) {
    exists s :: s in spans && s.0 <= n <= s.1
  }

  /** From an opener on, the state machine stays in that fence up to the line the look-ahead finds, and no further. */
  lemma {:induction false} FenceLastsTo(lines: seq<string>, i: nat, last: nat, x: nat)
    requires 1 <= i < x <= last + 1 <= |lines| + 1
    requires FenceOpen(Trim(lines[i - 1])).Some?
    ensures var fence := FenceOpen(Trim(lines[i - 1]));
            var close := FenceEnd(lines, fence.value, i + 1, last);
            && (x <= close ==> FenceBefore(lines, i - 1, x - 1) == fence)
            && (x == close + 1 && close < last ==> FenceBefore(lines, i - 1, x - 1) == None)
    decreases x
  {
    hide Trim, FenceOpen, IsFenceClose;
    assert FenceBefore(lines, i - 1, i - 1) == None;
    if i + 1 < x {
      FenceLastsTo(lines, i, last, x - 1);
      var fence := FenceOpen(Trim(lines[i - 1])).value;
      assert x <= FenceEnd(lines, fence, i + 1, last) ==> !ClosesAt(lines, fence, x - 1);
    }
  }

  lemma InSpansOfEither(a: seq<Range>, b: seq<Range>, n: nat)
    ensures InSpans(a + b, n) <==> InSpans(a, n) || InSpans(b, n)
  {
    if s :| s in a && s.0 <= n <= s.1 {
      assert s in a + b;
    }
    if s :| s in b && s.0 <= n <= s.1 {
      assert s in a + b;
    }
  }

  lemma SpansInRange(lines: seq<string>, i: nat, last: nat, n: nat)
    requires 1 <= i <= last + 1 <= |lines| + 1
    ensures InSpans(SpansOf(lines, i, last), n) ==> i <= n <= last
  {
    hide SpansOf;
  }

  /**
   * Up to the line after the one that starts at i, or after its fence, both readings
   * agree; then the machine is outside.
   */
  lemma HeadAgrees(lines: seq<string>, i: nat, last: nat, n: nat)
    requires 1 <= i <= last <= |lines|
    ensures var next := HeadOf(lines, i, last).1;
            && (InSpans(SpanAt(lines, i, last), n) ==> i <= n < next)
            && (i <= n < next ==> (InSpans(SpanAt(lines, i, last), n) <==> IsFenced(lines, i - 1, n - 1)))
            && (next <= last ==> FenceBefore(lines, i - 1, next - 1) == None)
  {
    hide Trim, FenceOpen, IsFenceClose, FenceEnd, FenceItems, ClosesAt;
    var opener, next := FenceOpen(Trim(lines[i - 1])), HeadOf(lines, i, last).1;
    assert FenceBefore(lines, i - 1, i - 1) == None;
    if opener.Some? {
      assert (i, next - 1) in SpanAt(lines, i, last);
      if next <= last {
        FenceLastsTo(lines, i, last, next);
      }
      if i < n < next {
        FenceLastsTo(lines, i, last, n);
      }
    } else {
      assert FenceBefore(lines, i - 1, i) == None;
    }
  }

  /**
   * The look-ahead and the state machine put the same lines in fences, when
   * both begin outside a fence at the same line.
   */
  lemma {:induction false} LookAheadAgrees(lines: seq<string>, i: nat, last: nat, n: nat)
    requires 1 <= i <= n <= last <= |lines|
    ensures InSpans(SpansOf(lines, i, last), n) <==> IsFenced(lines, i - 1, n - 1)
    decreases last + 1 - i
  {
    hide SpansOf, SpanAt, HeadOf, InSpans, FenceBefore, FenceOpen, Trim;
    var next := HeadOf(lines, i, last).1;
    SpanFirst(lines, i, last);
    InSpansOfEither(SpanAt(lines, i, last), SpansOf(lines, next, last), n);
    HeadAgrees(lines, i, last, n);
    SpansInRange(lines, next, last, n);
    if next <= n {
      FenceRestart(lines, i - 1, next - 1, n - 1);
      LookAheadAgrees(lines, next, last, n);
    }
  }

  /** Line ln would open a fence if it were read outside one. */
  predicate LooksLikeOpener(lines: seq<string>, ln: nat)
    requires 1 <= ln <= |lines|
  {
    FenceOpen(Trim(lines[ln - 1])).Some?
  }

  /** The look-ahead steps over lines that open no fence. */
  lemma {:induction false} SpansSkipText(lines: seq<string>, i: nat, c: nat, last: nat)
    requires 1 <= i <= c <= last + 1 <= |lines| + 1
    requires forall x :: i <= x < c ==> !LooksLikeOpener(lines, x)
    ensures SpansOf(lines, i, last) == SpansOf(lines, c, last)
    decreases c - i
  {
    hide Trim, FenceOpen, SpansOf;
    if i < c {
      SpanFirst(lines, i, last);
      SpansSkipText(lines, i + 1, c, last);
      assert !LooksLikeOpener(lines, i);
      assert SpanAt(lines, i, last) == [] && HeadOf(lines, i, last).1 == i + 1;
      assert [] + SpansOf(lines, i + 1, last) == SpansOf(lines, i + 1, last);
    }
  }

  /** Line n is past the first ten lines of a long fence and not its last line. */
  predicate DropsLine(s: Range, n: nat) {
    40 <= s.1 - s.0 + 1 && s.0 + 10 < n < s.1
  }

  predicate IsDropped(spans: seq<Range>, n: nat) {
    exists s :: s in spans && DropsLine(s, n)
  }

  lemma NothingDroppedOutside(lines: seq<string>, i: nat, last: nat, n: nat)
    requires 1 <= i <= last + 1 <= |lines| + 1
    ensures IsDropped(SpansOf(lines, i, last), n) ==> i < n < last
  {
    hide SpansOf;
  }

  lemma SpanFirst(lines: seq<string>, i: nat, last: nat)
    requires 1 <= i <= last <= |lines|
    ensures SpansOf(lines, i, last) == SpanAt(lines, i, last) + SpansOf(lines, HeadOf(lines, i, last).1, last)
  {
    hide HeadOf, SpanAt;
  }

  lemma KeptOfFence(a: nat, b: nat, n: nat)
    requires a <= b
    ensures Line(n) in FenceItems(a, b) <==>
              a <= n <= b && !DropsLine((a, b), n)
    ensures DropsLine((a, b), n) ==> a < n < b
  {
    var top := if b - a + 1 < FENCE_ELIDE_THRESHOLD_LINES then b else a + FENCE_KEEP_LINES;
    if a <= n <= top {
      assert LineItems(a, top)[n - a] == Line(n);
    }
  }

  /** The output keeps exactly the lines that no long fence drops. */
  lemma {:induction false} KeptUnlessDropped(lines: seq<string>, i: nat, last: nat, n: nat)
    requires 1 <= i <= last + 1 <= |lines| + 1
    ensures Line(n) in ItemsOf(lines, i, last) <==> i <= n <= last && !IsDropped(SpansOf(lines, i, last), n)
    decreases last + 1 - i
  {
    hide ItemsOf, SpansOf, SpanAt, HeadOf, IsDropped, Renderable, DropsLine;
    if last < i {
      NoItemsPastEnd(lines, last);
      NothingDroppedOutside(lines, i, last, n);
    } else {
      var (head, next) := HeadOf(lines, i, last);
      KeptUnlessDropped(lines, next, last, n);
      HeadFirst(lines, i, last);
      SpanFirst(lines, i, last);
      HeadKeeps(lines, i, last, n);
      NothingDroppedOutside(lines, next, last, n);
      DroppedInEither(SpanAt(lines, i, last), SpansOf(lines, next, last), n);
    }
  }

  lemma DroppedInEither(a: seq<Range>, b: seq<Range>, n: nat)
    ensures IsDropped(a + b, n) <==> IsDropped(a, n) || IsDropped(b, n)
  {
    if s :| s in a && DropsLine(s, n) {
      assert s in a + b;
    }
    if s :| s in b && DropsLine(s, n) {
      assert s in a + b;
    }
  }

  /** Of the line i, or the fence that opens there, exactly the undropped lines are kept. */
  lemma HeadKeeps(lines: seq<string>, i: nat, last: nat, n: nat)
    requires 1 <= i <= last <= |lines|
    ensures var (head, next) := HeadOf(lines, i, last);
            && (Line(n) in head <==> i <= n < next && !IsDropped(SpanAt(lines, i, last), n))
            && (IsDropped(SpanAt(lines, i, last), n) ==> i < n < next)
  {
    hide Trim, FenceOpen, FenceEnd, ClosesAt, FenceItems, DropsLine;
    var (head, next) := HeadOf(lines, i, last);
    if FenceOpen(Trim(lines[i - 1])).Some? {
      KeptOfFence(i, next - 1, n);
      assert (i, next - 1) in SpanAt(lines, i, last);
    }
  }

  lemma SliceOfTail(head: seq<Item>, tail: seq<Item>, k: nat, n: nat)
    requires k + n <= |tail|
    ensures (head + tail)[|head| + k..|head| + k + n] == tail[k..k + n]
  {
  }

  /** Every fence the look-ahead finds appears in the output as one stretch, in its kept form. */
  lemma {:induction false} SpanAppears(lines: seq<string>, i: nat, last: nat, s: Range) returns (k: nat)
    requires 1 <= i <= last + 1 <= |lines| + 1
    requires s in SpansOf(lines, i, last)
    ensures var kept, items := FenceItems(s.0, s.1), ItemsOf(lines, i, last);
            k + |kept| <= |items| && items[k..k + |kept|] == kept
    decreases last + 1 - i
  {
    hide ItemsOf, SpansOf, HeadOf, FenceItems, Renderable, Trim, FenceOpen;
    SpansPastEnd(lines, last);
    var (head, next) := HeadOf(lines, i, last);
    HeadFirst(lines, i, last);
    SpanFirst(lines, i, last);
    if s in SpanAt(lines, i, last) {
      k := 0;
      HeadOfSpan(lines, i, last);
      assert (head + ItemsOf(lines, next, last))[..|head|] == head;
    } else {
      k := SpanAppears(lines, next, last, s);
      SliceOfTail(head, ItemsOf(lines, next, last), k, |FenceItems(s.0, s.1)|);
      k := |head| + k;
    }
  }

  lemma SpansPastEnd(lines: seq<string>, last: nat)
    requires last <= |lines|
    ensures SpansOf(lines, last + 1, last) == []
  {
  }

  lemma HeadOfSpan(lines: seq<string>, i: nat, last: nat)
    requires 1 <= i <= last <= |lines| && SpanAt(lines, i, last) != []
    ensures HeadOf(lines, i, last).0 == FenceItems(i, HeadOf(lines, i, last).1 - 1)
  {
    hide Trim, FenceOpen, FenceEnd, ClosesAt, FenceItems;
  }
}
