// Section building: the heading stack and its trails, and the merge of short
// leaves into the section before them.
module MarkdownSections {
  import opened Basics
  import opened Text
  import opened MarkdownLines
  import opened MarkdownScan

  // A childless heading with a body shorter than this may be absorbed.
  const MERGE_UP_CHARS: nat := 400

  datatype Section = Section(trail: seq<string>, lineStart: nat, lineEnd: nat, isPreamble: bool)

  // ----- heading ancestry, declaratively -----

  /** Heading j is heading i itself or an ancestor of it: everything after j, up to i, is deeper. */
  predicate Governs(hs: seq<RawHeading>, j: nat, i: nat)
    requires i < |hs|
  {
    j <= i && forall m :: j < m <= i ==> hs[j].level < hs[m].level
  }

  /** The headings among the first `n` that govern heading i, in document order. */
  function ChainUpTo(hs: seq<RawHeading>, i: nat, n: nat): (c: seq<nat>)
    requires i < |hs| && n <= i + 1
    ensures forall k :: 0 <= k < |c| ==> c[k] < n
  {
    if n == 0 then []
    else if Governs(hs, n - 1, i) then ChainUpTo(hs, i, n - 1) + [n - 1]
    else ChainUpTo(hs, i, n - 1)
  }

  /** In document order, each deeper than the one before. */
  predicate Descends(hs: seq<RawHeading>, c: seq<nat>) {
    && (forall k :: 0 <= k < |c| ==> c[k] < |hs|)
    && (forall k, l :: 0 <= k < l < |c| ==> c[k] < c[l] && hs[c[k]].level < hs[c[l]].level)
  }

  lemma DescendsSnoc(hs: seq<RawHeading>, c: seq<nat>, x: nat)
    requires Descends(hs, c) && x < |hs|
    requires forall k :: 0 <= k < |c| ==> c[k] < x && hs[c[k]].level < hs[x].level
    ensures Descends(hs, c + [x])
  {
  }

  lemma DescendsNil(hs: seq<RawHeading>)
    ensures Descends(hs, [])
  {
  }

  /** The chain holds exactly the governing headings, each once, in order; so levels increase along it. */
  lemma {:induction false} ChainMeaning(hs: seq<RawHeading>, i: nat, n: nat)
    requires i < |hs| && n <= i + 1
    ensures forall j :: 0 <= j < n ==> (j in ChainUpTo(hs, i, n) <==> Governs(hs, j, i))
    ensures Descends(hs, ChainUpTo(hs, i, n))
  {
    hide Governs, Descends;
    if n == 0 {
      DescendsNil(hs);
    } else {
      ChainMeaning(hs, i, n - 1);
      var before := ChainUpTo(hs, i, n - 1);
      if Governs(hs, n - 1, i) {
        assert forall k :: 0 <= k < |before| ==> before[k] in before;
        GoverningAreHigher(hs, i, n - 1, before);
        DescendsSnoc(hs, before, n - 1);
      }
    }
  }

  lemma GoverningAreHigher(hs: seq<RawHeading>, i: nat, m: nat, c: seq<nat>)
    requires m <= i < |hs| && Governs(hs, m, i)
    requires forall k :: 0 <= k < |c| ==> c[k] < m && Governs(hs, c[k], i)
    ensures forall k :: 0 <= k < |c| ==> hs[c[k]].level < hs[m].level
  {
    hide Governs;
    forall k | 0 <= k < |c|
      ensures hs[c[k]].level < hs[m].level
    {
      GovernsLevels(hs, c[k], m, i);
    }
  }

  lemma GovernsLevels(hs: seq<RawHeading>, j: nat, m: nat, i: nat)
    requires j < m <= i < |hs| && Governs(hs, j, i)
    ensures hs[j].level < hs[m].level
  {
  }

  /** Heading i with all its ancestors, outermost first. */
  function Chain(hs: seq<RawHeading>, i: nat): (c: seq<nat>)
    requires i < |hs|
    ensures c != [] && c[|c| - 1] == i
    ensures forall k :: 0 <= k < |c| ==> c[k] <= i
  {
    ChainUpTo(hs, i, i + 1)
  }

  lemma ChainOfSelf(hs: seq<RawHeading>, i: nat)
    requires i < |hs|
    ensures Chain(hs, i) == ChainUpTo(hs, i, i) + [i]
  {
  }

  function Titles(hs: seq<RawHeading>, c: seq<nat>): (t: seq<string>)
    requires forall k :: 0 <= k < |c| ==> c[k] < |hs|
    ensures |t| == |c| && forall k :: 0 <= k < |c| ==> t[k] == hs[c[k]].text
  {
    seq(|c|, k requires 0 <= k < |c| => hs[c[k]].text)
  }

  function Trail(hs: seq<RawHeading>, i: nat): seq<string>
    requires i < |hs|
  {
    Titles(hs, Chain(hs, i))
  }

  /** Headings that govern both i and a heading k it sits below are the same up to k. */
  lemma {:induction false} ChainsAgreeBelow(hs: seq<RawHeading>, k: nat, i: nat, n: nat)
    requires k <= i < |hs| && Governs(hs, k, i) && n <= k + 1
    ensures ChainUpTo(hs, i, n) == ChainUpTo(hs, k, n)
  {
    if 0 < n {
      ChainsAgreeBelow(hs, k, i, n - 1);
      assert Governs(hs, n - 1, k) ==> Governs(hs, n - 1, i) by {
        if Governs(hs, n - 1, k) {
          forall m | n - 1 < m <= i
            ensures hs[n - 1].level < hs[m].level
          {
            if k < m {
              assert hs[k].level < hs[m].level;
            }
          }
        }
      }
    }
  }

  lemma {:induction false} ChainExtends(hs: seq<RawHeading>, i: nat, m: nat, n: nat)
    requires i < |hs| && m <= n <= i + 1
    ensures ChainUpTo(hs, i, m) <= ChainUpTo(hs, i, n)
    decreases n
  {
    if m < n {
      ChainExtends(hs, i, m, n - 1);
    }
  }

  /** If everything governing i below n also governs k, chain i is no longer than chain k there. */
  lemma {:induction false} ChainNoLonger(hs: seq<RawHeading>, k: nat, i: nat, n: nat)
    requires k < |hs| && i < |hs| && n <= k + 1 && n <= i + 1
    requires forall j :: 0 <= j < n && Governs(hs, j, i) ==> Governs(hs, j, k)
    ensures |ChainUpTo(hs, i, n)| <= |ChainUpTo(hs, k, n)|
  {
    if 0 < n {
      ChainNoLonger(hs, k, i, n - 1);
    }
  }

  /** Nothing between k and i governs i when all of it is deeper than k and i is not. */
  lemma {:induction false} ChainSkips(hs: seq<RawHeading>, k: nat, i: nat, n: nat)
    requires k < i < |hs| && k <= n <= i
    requires forall m :: k < m < i ==> hs[k].level < hs[m].level
    requires hs[i].level <= hs[k].level
    ensures ChainUpTo(hs, i, n) == ChainUpTo(hs, i, k)
    decreases n
  {
    if k < n {
      ChainSkips(hs, k, i, n - 1);
      assert !Governs(hs, n - 1, i);
    }
  }

  // ----- the strict-prefix test -----

  /** `a` is non-empty and a proper prefix of `b`. */
  predicate IsStrictPrefix(a: seq<string>, b: seq<string>) {
    a != [] && |a| < |b| && forall k :: 0 <= k < |a| ==> a[k] == b[k]
  }

  /**
   * The merge guard compares heading texts only, and texts may repeat.  Still,
   * when everything between k and i is below k, the guard holds exactly when k
   * is a structural ancestor of i.
   */
  lemma PrefixMeansAncestor(hs: seq<RawHeading>, k: nat, i: nat)
    requires k < i < |hs|
    requires forall m :: k < m < i ==> hs[k].level < hs[m].level
    ensures IsStrictPrefix(Trail(hs, k), Trail(hs, i)) <==> Governs(hs, k, i)
  {
    if Governs(hs, k, i) {
      ChainsAgreeBelow(hs, k, i, k + 1);
      ChainExtends(hs, i, k + 1, i);
      assert Chain(hs, k) <= ChainUpTo(hs, i, i);
      assert Chain(hs, i) == ChainUpTo(hs, i, i) + [i];
    } else {
      ChainSkips(hs, k, i, i);
      assert Chain(hs, i) == ChainUpTo(hs, i, i) + [i];
      assert Chain(hs, k) == ChainUpTo(hs, k, k) + [k];
      forall j | 0 <= j < k && Governs(hs, j, i)
        ensures Governs(hs, j, k)
      {
      }
      ChainNoLonger(hs, k, i, k);
    }
  }

  // ----- leaves -----

  /** The code looks one heading ahead. */
  predicate IsLeaf(hs: seq<RawHeading>, i: nat)
    requires i < |hs|
  {
    i + 1 < |hs| ==> hs[i + 1].level <= hs[i].level
  }

  /** One step of look-ahead decides whether any later heading is a descendant. */
  lemma LeafHasNoDescendant(hs: seq<RawHeading>, i: nat)
    requires i < |hs|
    ensures IsLeaf(hs, i) <==> forall m :: i < m < |hs| ==> !Governs(hs, i, m)
  {
    if !IsLeaf(hs, i) {
      assert Governs(hs, i, i + 1);
    }
  }

  // ----- the heading stack -----

  function StackOf(hs: seq<RawHeading>, c: seq<nat>): (s: seq<(nat, string)>)
    requires forall k :: 0 <= k < |c| ==> c[k] < |hs|
    ensures |s| == |c| && forall k :: 0 <= k < |c| ==> s[k] == (hs[c[k]].level, hs[c[k]].text)
  {
    seq(|c|, k requires 0 <= k < |c| => (hs[c[k]].level, hs[c[k]].text))
  }

  /** A heading before i governs i exactly when it governs i's predecessor and stands above i. */
  lemma GovernsNext(hs: seq<RawHeading>, j: nat, i: nat)
    requires 0 < i < |hs| && j < i
    ensures Governs(hs, j, i) <==> Governs(hs, j, i - 1) && hs[j].level < hs[i].level
  {
  }

  /** The chain c is what stays of the chain d when levels from `level` on are popped. */
  predicate PopsTo(hs: seq<RawHeading>, level: nat, d: seq<nat>, c: seq<nat>) {
    && (forall k :: 0 <= k < |d| ==> d[k] < |hs|)
    && c <= d
    && (forall k :: 0 <= k < |c| ==> hs[d[k]].level < level)
    && (forall k :: |c| <= k < |d| ==> level <= hs[d[k]].level)
  }

  lemma PopsToBoth(hs: seq<RawHeading>, level: nat, d: seq<nat>, c: seq<nat>, x: nat)
    requires PopsTo(hs, level, d, c) && |c| == |d| && x < |hs| && hs[x].level < level
    ensures PopsTo(hs, level, d + [x], c + [x])
  {
  }

  lemma PopsToFirst(hs: seq<RawHeading>, level: nat, d: seq<nat>, c: seq<nat>, x: nat)
    requires PopsTo(hs, level, d, c) && x < |hs| && level <= hs[x].level
    ensures PopsTo(hs, level, d + [x], c)
  {
  }

  /** What popping does: of the chain of i - 1, the levels below heading i stay, and they come first. */
  lemma {:induction false} ChainPops(hs: seq<RawHeading>, i: nat, n: nat)
    requires 0 < i < |hs| && n <= i
    ensures PopsTo(hs, hs[i].level, ChainUpTo(hs, i - 1, n), ChainUpTo(hs, i, n))
    decreases n
  {
    hide Governs;
    if 0 < n {
      hide PopsTo;
      ChainPops(hs, i, n - 1);
      GovernsNext(hs, n - 1, i);
      var c, d := ChainUpTo(hs, i, n - 1), ChainUpTo(hs, i - 1, n - 1);
      if Governs(hs, n - 1, i) {
        NothingToPop(hs, i, n - 1);
        PopsToBoth(hs, hs[i].level, d, c, n - 1);
      } else if Governs(hs, n - 1, i - 1) {
        PopsToFirst(hs, hs[i].level, d, c, n - 1);
      }
    }
  }

  /** When heading j governs i, everything that governs i - 1 from above j governs i too. */
  lemma NothingToPop(hs: seq<RawHeading>, i: nat, j: nat)
    requires 0 < i < |hs| && j < i && Governs(hs, j, i)
    requires PopsTo(hs, hs[i].level, ChainUpTo(hs, i - 1, j), ChainUpTo(hs, i, j))
    ensures |ChainUpTo(hs, i, j)| == |ChainUpTo(hs, i - 1, j)|
  {
    hide Governs, ChainUpTo;
    var c, d := ChainUpTo(hs, i, j), ChainUpTo(hs, i - 1, j);
    GovernsNext(hs, j, i);
    ChainMeaning(hs, i - 1, j);
    if |c| < |d| {
      assert d[|c|] in d;
      GovernsLevels(hs, d[|c|], j, i - 1);
    }
  }

  /** The stack before heading i: the chain of the heading before it. */
  predicate StackBefore(hs: seq<RawHeading>, i: nat, stack: seq<(nat, string)>)
    requires i <= |hs|
  {
    stack == if i == 0 then [] else StackOf(hs, Chain(hs, i - 1))
  }

  lemma EmptyStack(hs: seq<RawHeading>)
    ensures StackBefore(hs, 0, [])
  {
  }

  /** On the stack before heading i, the first `keep` entries are its ancestors; the others are not above it. */
  lemma StackPops(hs: seq<RawHeading>, i: nat, stack: seq<(nat, string)>) returns (keep: nat)
    requires i < |hs| && StackBefore(hs, i, stack)
    ensures keep == |ChainUpTo(hs, i, i)| <= |stack|
    ensures forall k :: 0 <= k < keep ==> stack[k].0 < hs[i].level
    ensures forall k :: keep <= k < |stack| ==> hs[i].level <= stack[k].0
    ensures stack[..keep] == StackOf(hs, ChainUpTo(hs, i, i))
  {
    hide Governs;
    keep := |ChainUpTo(hs, i, i)|;
    if i > 0 {
      ChainPops(hs, i, i);
    }
  }

  lemma StackGrows(hs: seq<RawHeading>, i: nat, stack: seq<(nat, string)>)
    requires i < |hs| && stack == StackOf(hs, ChainUpTo(hs, i, i))
    ensures StackBefore(hs, i + 1, stack + [(hs[i].level, hs[i].text)])
    ensures Trail(hs, i) == seq(|stack|, k requires 0 <= k < |stack| => stack[k].1) + [hs[i].text]
  {
    ChainOfSelf(hs, i);
  }

  /** Pops the stack down to the ancestors of heading i, then pushes heading i. */
  method PushHeading(stack: seq<(nat, string)>, hs: seq<RawHeading>, i: nat)
    returns (trail: seq<string>, newStack: seq<(nat, string)>)
    requires i < |hs| && StackBefore(hs, i, stack)
    ensures trail == Trail(hs, i)
    ensures StackBefore(hs, i + 1, newStack)
  {
    hide Trail, StackBefore, ChainUpTo, StackOf;
    var h := hs[i];
    newStack := stack;
    ghost var keep := StackPops(hs, i, stack);
    while newStack != [] && newStack[|newStack| - 1].0 >= h.level
      invariant keep <= |newStack| && newStack <= stack
      decreases |newStack|
    {
      newStack := newStack[..|newStack| - 1];
    }
    assert newStack == stack[..keep];
    StackGrows(hs, i, newStack);
    trail := seq(|newStack|, k requires 0 <= k < |newStack| => newStack[k].1) + [h.text];
    newStack := newStack + [(h.level, h.text)];
  }

  // ----- sections -----

  function SectionEnd(hs: seq<RawHeading>, total: nat, i: nat): nat
    requires i < |hs|
  {
    if i + 1 < |hs| then SaturatingSub(hs[i + 1].line, 1) else total
  }

  function BodyLen(lines: seq<string>, hs: seq<RawHeading>, i: nat): nat
    requires i < |hs| && HeadingsInOrder(hs, 0, |lines|)
  {
    var end := SectionEnd(hs, |lines|, i);
    if hs[i].line < end then RawCharLen(lines, hs[i].line + 1, end) else 0
  }

  function PreambleEnd(hs: seq<RawHeading>, total: nat): nat {
    if hs != [] then SaturatingSub(hs[0].line, 1) else total
  }

  predicate HasText(lines: seq<string>, first: nat, last: nat)
    requires 1 <= first && last <= |lines|
  {
    exists ln: nat :: first <= ln <= last && !IsBlankLine(lines, ln)
  }

  function Preamble(lines: seq<string>, hs: seq<RawHeading>, start: nat): seq<Section>
    requires HeadingsInOrder(hs, 0, |lines|)
  {
    var end := PreambleEnd(hs, |lines|);
    if HasText(lines, start + 1, end) then [Section([], start + 1, end, true)] else []
  }

  /** Heading i is absorbed by the last section built so far. */
  predicate IsAbsorbed(lines: seq<string>, hs: seq<RawHeading>, output: seq<Section>, i: nat)
    requires i < |hs| && HeadingsInOrder(hs, 0, |lines|)
  {
    && IsLeaf(hs, i)
    && BodyLen(lines, hs, i) < MERGE_UP_CHARS
    && output != []
    && !output[|output| - 1].isPreamble
    && IsStrictPrefix(output[|output| - 1].trail, Trail(hs, i))
  }

  /** Sections after the preamble and the first n headings. */
  function SectionsUpTo(lines: seq<string>, hs: seq<RawHeading>, start: nat, n: nat): (output: seq<Section>)
    requires n <= |hs| && HeadingsInOrder(hs, 0, |lines|)
    ensures 0 < n ==> output != []
  {
    if n == 0 then Preamble(lines, hs, start)
    else
      var output := SectionsUpTo(lines, hs, start, n - 1);
      var end := SectionEnd(hs, |lines|, n - 1);
      if IsAbsorbed(lines, hs, output, n - 1) then
        output[|output| - 1 := output[|output| - 1].(lineEnd := end)]
      else
        output + [Section(Trail(hs, n - 1), hs[n - 1].line, end, false)]
  }

  function SectionsOf(lines: seq<string>): seq<Section> {
    var doc := ScanOf(lines);
    HeadingsAreInOrder(lines, doc.contentStart, |lines|);
    SectionsUpTo(lines, doc.headings, doc.contentStart, |doc.headings|)
  }

  method BuildPreamble(doc: ScanResult, lines: seq<string>) returns (output: seq<Section>)
    requires doc.totalLines == |lines| && HeadingsInOrder(doc.headings, 0, |lines|)
    ensures output == Preamble(lines, doc.headings, doc.contentStart)
  {
    hide IsBlankLine;
    var hs := doc.headings;
    output := [];
    var preambleStart := doc.contentStart + 1;
    var preambleEnd := if hs != [] then SaturatingSub(hs[0].line, 1) else doc.totalLines;
    if preambleEnd >= preambleStart && preambleStart <= doc.totalLines &&
       exists ln: nat :: preambleStart <= ln <= preambleEnd && !IsBlankLine(lines, ln)
    {
      output := [Section([], preambleStart, preambleEnd, true)];
    }
  }

  /** One more heading: absorbed by the last section, or the head of a new one. */
  lemma OneMoreHeading(lines: seq<string>, hs: seq<RawHeading>, start: nat, i: nat)
    requires i < |hs| && HeadingsInOrder(hs, 0, |lines|)
    ensures var output, end := SectionsUpTo(lines, hs, start, i), SectionEnd(hs, |lines|, i);
            && (IsAbsorbed(lines, hs, output, i) ==> output != [])
            && SectionsUpTo(lines, hs, start, i + 1) ==
               if IsAbsorbed(lines, hs, output, i) then output[|output| - 1 := output[|output| - 1].(lineEnd := end)]
               else output + [Section(Trail(hs, i), hs[i].line, end, false)]
  {
    hide Trail, HeadingsInOrder, SectionEnd, BodyLen, IsStrictPrefix;
  }

  lemma BodyBounds(lines: seq<string>, hs: seq<RawHeading>, i: nat)
    requires i < |hs| && HeadingsInOrder(hs, 0, |lines|)
    ensures var end := SectionEnd(hs, |lines|, i);
            && hs[i].line <= end <= |lines|
            && BodyLen(lines, hs, i) == if hs[i].line < end then RawCharLen(lines, hs[i].line + 1, end) else 0
  {
    hide RawCharLen;
  }

  method BuildSections(doc: ScanResult, lines: seq<string>) returns (output: seq<Section>)
    requires doc.totalLines == |lines| && HeadingsInOrder(doc.headings, 0, |lines|)
    ensures output == SectionsUpTo(lines, doc.headings, doc.contentStart, |doc.headings|)
  {
    hide Trail, IsStrictPrefix, RawCharLen, Preamble, SectionsUpTo, BodyLen, HeadingsInOrder, StackBefore;
    output := BuildPreamble(doc, lines);
    var hs := doc.headings;
    NoHeadingsYet(lines, hs, doc.contentStart);
    var stack: seq<(nat, string)> := [];
    EmptyStack(hs);
    var i := 0;
    while i < |hs|
      invariant 0 <= i <= |hs|
      invariant StackBefore(hs, i, stack)
      invariant output == SectionsUpTo(lines, hs, doc.contentStart, i)
    {
      var h := hs[i];
      BodyBounds(lines, hs, i);
      OneMoreHeading(lines, hs, doc.contentStart, i);
      var trail;
      trail, stack := PushHeading(stack, hs, i);
      var isLeaf := i + 1 >= |hs| || hs[i + 1].level <= h.level;
      var sectionEnd := if i + 1 < |hs| then SaturatingSub(hs[i + 1].line, 1) else doc.totalLines;
      var bodyLen := if h.line < sectionEnd then RawCharLen(lines, h.line + 1, sectionEnd) else 0;
      if isLeaf && bodyLen < MERGE_UP_CHARS &&
         output != [] && !output[|output| - 1].isPreamble && IsStrictPrefix(output[|output| - 1].trail, trail)
      {
        output := output[|output| - 1 := output[|output| - 1].(lineEnd := sectionEnd)];
      } else {
        output := output + [Section(trail, h.line, sectionEnd, false)];
      }
      i := i + 1;
    }
  }

  lemma NoHeadingsYet(lines: seq<string>, hs: seq<RawHeading>, start: nat)
    requires HeadingsInOrder(hs, 0, |lines|)
    ensures SectionsUpTo(lines, hs, start, 0) == Preamble(lines, hs, start)
    ensures forall k :: 0 <= k < |Preamble(lines, hs, start)| ==> Preamble(lines, hs, start)[k].isPreamble
  {
  }

  // ----- merging is structural -----

  /** The heading that owns the last section after n headings; 0 < n. */
  function Owner(lines: seq<string>, hs: seq<RawHeading>, start: nat, n: nat): (k: nat)
    requires 0 < n <= |hs| && HeadingsInOrder(hs, 0, |lines|)
    ensures k < n
  {
    if 1 < n && IsAbsorbed(lines, hs, SectionsUpTo(lines, hs, start, n - 1), n - 1)
    then Owner(lines, hs, start, n - 1)
    else n - 1
  }

  /** The last section belongs to its owner, which governs every heading folded into it. */
  lemma {:induction false} OwnerGoverns(lines: seq<string>, hs: seq<RawHeading>, start: nat, n: nat)
    requires 0 < n <= |hs| && HeadingsInOrder(hs, 0, |lines|)
    ensures var output, k := SectionsUpTo(lines, hs, start, n), Owner(lines, hs, start, n);
            && Governs(hs, k, n - 1)
            && output[|output| - 1] == Section(Trail(hs, k), hs[k].line, SectionEnd(hs, |lines|, n - 1), false)
  {
    hide Trail, IsStrictPrefix, IsLeaf, BodyLen;
    if 1 < n {
      OwnerGoverns(lines, hs, start, n - 1);
      var output, k := SectionsUpTo(lines, hs, start, n - 1), Owner(lines, hs, start, n - 1);
      if IsAbsorbed(lines, hs, output, n - 1) {
        PrefixMeansAncestor(hs, k, n - 1);
      }
    }
  }

  /**
   * Merge-up is structural: heading i is absorbed exactly when it has no
   * descendant, its body is short, and the heading that owns the last section
   * is a true ancestor of it, whatever the texts on the way are.
   */
  lemma AbsorptionIsStructural(lines: seq<string>, hs: seq<RawHeading>, start: nat, i: nat)
    requires 0 < i < |hs| && HeadingsInOrder(hs, 0, |lines|)
    ensures IsAbsorbed(lines, hs, SectionsUpTo(lines, hs, start, i), i) <==>
              && (forall m :: i < m < |hs| ==> !Governs(hs, i, m))
              && RawCharLen(lines, hs[i].line + 1, if i + 1 < |hs| then hs[i + 1].line - 1 else |lines|) < 400
              && Governs(hs, Owner(lines, hs, start, i), i)
  {
    LeafHasNoDescendant(hs, i);
    OwnerGoverns(lines, hs, start, i);
    PrefixMeansAncestor(hs, Owner(lines, hs, start, i), i);
  }

  /** Section s is headed by heading k, which governs heading i, and spans heading i's line. */
  predicate LiesUnder(hs: seq<RawHeading>, i: nat, s: Section, k: nat)
    requires i < |hs|
  {
    && k <= i && Governs(hs, k, i)
    && !s.isPreamble && s.trail == Trail(hs, k)
    && s.lineStart == hs[k].line && hs[i].line <= s.lineEnd
  }

  /** Every heading lies in a section headed by itself or by one of its ancestors. */
  lemma {:induction false} HeadingsLieUnderAncestors(lines: seq<string>, hs: seq<RawHeading>, start: nat, n: nat,
        i: nat)
    returns (x: nat, k: nat)
    requires i < n <= |hs| && HeadingsInOrder(hs, 0, |lines|)
    ensures x < |SectionsUpTo(lines, hs, start, n)|
    ensures LiesUnder(hs, i, SectionsUpTo(lines, hs, start, n)[x], k)
    decreases n
  {
    hide Trail, Governs, IsAbsorbed;
    if i == n - 1 {
      OwnerGoverns(lines, hs, start, n);
      x, k := |SectionsUpTo(lines, hs, start, n)| - 1, Owner(lines, hs, start, n);
    } else {
      x, k := HeadingsLieUnderAncestors(lines, hs, start, n - 1, i);
      OwnerGoverns(lines, hs, start, n - 1);
    }
  }

  // ----- sections tile the content -----

  function SectionSpan(s: Section): Range { (s.lineStart, s.lineEnd) }

  /** Where sections begin: with the preamble if it has text, else at the first heading. */
  function FirstCovered(lines: seq<string>, hs: seq<RawHeading>, start: nat): nat
    requires HeadingsInOrder(hs, 0, |lines|)
  {
    if hs == [] || HasText(lines, start + 1, SaturatingSub(hs[0].line, 1)) then start + 1 else hs[0].line
  }

  /** The line before the next heading, or the last line. */
  function TiledTo(hs: seq<RawHeading>, total: nat, n: nat): nat
    requires n <= |hs|
  {
    if n < |hs| then SaturatingSub(hs[n].line, 1) else total
  }

  lemma TilesGrow(sections: seq<Section>, first: nat, last: nat, end: nat)
    requires Tiles(Spans(sections, SectionSpan), first, last) && last <= end
    ensures Tiles(Spans(sections[|sections| - 1 := sections[|sections| - 1].(lineEnd := end)], SectionSpan), first, end)
  {
  }

  lemma TilesAppend(sections: seq<Section>, first: nat, last: nat, s: Section)
    requires Tiles(Spans(sections, SectionSpan), first, last) && s.lineStart == last + 1 <= s.lineEnd
    ensures Tiles(Spans(sections + [s], SectionSpan), first, s.lineEnd)
  {
  }

  lemma TileOfOne(s: Section)
    requires s.lineStart <= s.lineEnd
    ensures Tiles(Spans([] + [s], SectionSpan), s.lineStart, s.lineEnd)
  {
  }

  lemma {:induction false} SectionsTile(lines: seq<string>, hs: seq<RawHeading>, start: nat, n: nat)
    requires n <= |hs| && HeadingsInOrder(hs, 0, |lines|)
    requires SectionsUpTo(lines, hs, start, n) != []
    ensures Tiles(Spans(SectionsUpTo(lines, hs, start, n), SectionSpan),
                  FirstCovered(lines, hs, start), TiledTo(hs, |lines|, n))
  {
    hide Trail, IsAbsorbed, SectionsUpTo, Preamble, Tiles, HeadingsInOrder, FirstCovered;
    if n == 0 {
      PreambleTiles(lines, hs, start);
    } else {
      var i := n - 1;
      var output, end := SectionsUpTo(lines, hs, start, i), SectionEnd(hs, |lines|, i);
      OneMoreHeading(lines, hs, start, i);
      BodyBounds(lines, hs, i);
      var s := Section(Trail(hs, i), hs[i].line, end, false);
      if output == [] {
        NothingBefore(lines, hs, start, i);
        TileOfOne(s);
      } else {
        SectionsTile(lines, hs, start, i);
        LineIsPositive(lines, hs, i);
        TilesGrow(output, FirstCovered(lines, hs, start), hs[i].line - 1, end);
        TilesAppend(output, FirstCovered(lines, hs, start), hs[i].line - 1, s);
      }
    }
  }

  lemma LineIsPositive(lines: seq<string>, hs: seq<RawHeading>, i: nat)
    requires i < |hs| && HeadingsInOrder(hs, 0, |lines|)
    ensures 0 < hs[i].line
  {
  }

  lemma PreambleTiles(lines: seq<string>, hs: seq<RawHeading>, start: nat)
    requires HeadingsInOrder(hs, 0, |lines|) && SectionsUpTo(lines, hs, start, 0) != []
    ensures Tiles(Spans(SectionsUpTo(lines, hs, start, 0), SectionSpan),
                  FirstCovered(lines, hs, start), TiledTo(hs, |lines|, 0))
  {
    hide IsBlankLine;
  }

  lemma NothingBefore(lines: seq<string>, hs: seq<RawHeading>, start: nat, n: nat)
    requires n < |hs| && HeadingsInOrder(hs, 0, |lines|) && SectionsUpTo(lines, hs, start, n) == []
    ensures n == 0 && FirstCovered(lines, hs, start) == hs[0].line
    ensures !IsAbsorbed(lines, hs, [], n)
  {
    hide HasText;
  }

  /** Section s is the preamble, or it starts at heading k and carries that heading's chain of titles. */
  predicate IsHeadedBy(hs: seq<RawHeading>, start: nat, s: Section, k: nat) {
    if s.isPreamble then s.trail == [] && s.lineStart == start + 1
    else k < |hs| && s.trail == Trail(hs, k) && s.lineStart == hs[k].line
  }

  lemma {:induction false} SectionsAreHeaded(lines: seq<string>, hs: seq<RawHeading>, start: nat, n: nat, x: nat)
    returns (k: nat)
    requires n <= |hs| && HeadingsInOrder(hs, 0, |lines|)
    requires x < |SectionsUpTo(lines, hs, start, n)|
    ensures IsHeadedBy(hs, start, SectionsUpTo(lines, hs, start, n)[x], k)
    decreases n
  {
    hide Trail, IsLeaf, BodyLen, IsStrictPrefix;
    if n == 0 {
      k := 0;
    } else if x < |SectionsUpTo(lines, hs, start, n - 1)| {
      k := SectionsAreHeaded(lines, hs, start, n - 1, x);
    } else {
      k := n - 1;
    }
  }
}
