// Lines of a document by their 1-based numbers: blankness, size, and ranges that
// tile a stretch of lines.
module MarkdownLines {
  import opened Text

  /** Line `ln`, counted from 1, is empty but for white space. */
  predicate IsBlankLine(lines: seq<string>, ln: nat)
    requires 1 <= ln <= |lines|
  {
    Trim(lines[ln - 1]) == ""
  }

  /** Characters of lines `first..last` (1-based, inclusive), counting one newline each. */
  function RawCharLen(lines: seq<string>, first: nat, last: nat): (n: nat)
    requires 1 <= first && last <= |lines|
    ensures last < first ==> n == 0
    decreases last
  {
    if last < first then 0 else RawCharLen(lines, first, last - 1) + |lines[last - 1]| + 1
  }

  lemma {:induction false} RawCharLenSplits(lines: seq<string>, first: nat, mid: nat, last: nat)
    requires 1 <= first <= mid + 1 && mid <= last <= |lines|
    ensures RawCharLen(lines, first, last) == RawCharLen(lines, first, mid) + RawCharLen(lines, mid + 1, last)
    decreases last
  {
    if mid < last {
      RawCharLenSplits(lines, first, mid, last - 1);
    }
  }

  // ----- ranges of lines -----

  // First and last line, 1-based and inclusive.
  type Range = (nat, nat)

  /** The ranges of items that each have one. */
  function Spans<T>(items: seq<T>, span: T -> Range): (r: seq<Range>)
    ensures |r| == |items| && forall k :: 0 <= k < |r| ==> r[k] == span(items[k])
  {
    seq(|items|, k requires 0 <= k < |items| => span(items[k]))
  }

  /** The ranges follow each other without gap or overlap and cover `first..last`. */
  predicate Tiles(ranges: seq<Range>, first: nat, last: nat) {
    && ranges != []
    && ranges[0].0 == first
    && ranges[|ranges| - 1].1 == last
    && (forall k :: 0 <= k < |ranges| ==> ranges[k].0 <= ranges[k].1)
    && (forall k :: 0 <= k < |ranges| - 1 ==> ranges[k].1 + 1 == ranges[k + 1].0)
  }

  lemma {:induction false} TilesStayInside(ranges: seq<Range>, first: nat, last: nat)
    requires Tiles(ranges, first, last)
    ensures forall k :: 0 <= k < |ranges| ==> first <= ranges[k].0 && ranges[k].1 <= last
  {
    if 1 < |ranges| {
      assert Tiles(ranges[1..], ranges[0].1 + 1, last);
      TilesStayInside(ranges[1..], ranges[0].1 + 1, last);
      assert forall k :: 0 < k < |ranges| ==> ranges[k] == ranges[1..][k - 1];
    }
  }

  lemma LastOfTiles(ranges: seq<Range>, first: nat, last: nat)
    requires Tiles(ranges, first, last)
    ensures ranges != [] && ranges[|ranges| - 1].1 == last
  {
  }

  lemma TilesOfOne(r: Range)
    requires r.0 <= r.1
    ensures Tiles([r], r.0, r.1)
  {
  }

  lemma TilesCons(r: Range, rest: seq<Range>, last: nat)
    requires r.0 <= r.1 && Tiles(rest, r.1 + 1, last)
    ensures Tiles([r] + rest, r.0, last)
  {
  }

  lemma TilesJoin(a: seq<Range>, b: seq<Range>, first: nat, mid: nat, last: nat)
    requires Tiles(a, first, mid) && Tiles(b, mid + 1, last)
    ensures Tiles(a + b, first, last)
  {
  }

  /** Every line of the stretch is in exactly one of the ranges. */
  lemma {:induction false} TilesCover(ranges: seq<Range>, first: nat, last: nat, ln: nat) returns (k: nat)
    requires Tiles(ranges, first, last) && first <= ln <= last
    ensures k < |ranges| && ranges[k].0 <= ln <= ranges[k].1
    ensures forall j :: 0 <= j < |ranges| && ranges[j].0 <= ln <= ranges[j].1 ==> j == k
    decreases |ranges|
  {
    k := 0;
    if 1 < |ranges| {
      var rest := ranges[1..];
      assert Tiles(rest, ranges[1].0, last);
      TilesStayInside(rest, ranges[1].0, last);
      assert forall j :: 0 < j < |ranges| ==> ranges[j] == rest[j - 1];
      if ranges[0].1 < ln {
        k := TilesCover(rest, ranges[1].0, last, ln);
        k := k + 1;
      }
    }
  }
}
