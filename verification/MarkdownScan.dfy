// The line scanner: front matter, then one pass that finds ATX and Setext
// headings while stepping over fenced code.
module MarkdownScan {
  import opened Basics
  import opened Text
  import opened MarkdownFences

  // The furthest line on which a front-matter block may be closed.
  const FRONT_MATTER_MAX_SCAN: nat := 200

  datatype RawHeading = RawHeading(level: nat, text: string, line: nat)

  datatype ScanResult = ScanResult(
    frontMatterTitle: Option<string>, contentStart: nat, headings: seq<RawHeading>, totalLines: nat)

  // ----- single lines -----

  function AtxHeading(trimmed: string): (r: Option<(nat, string)>)
    ensures r.Some? ==> 1 <= r.value.0 <= 6 && trimmed != "" && trimmed[0] == '#'
  {
    var hashes := RunLength(trimmed, '#');
    if hashes == 0 || 6 < hashes then None
    else
      var rest := trimmed[hashes..];
      if rest != "" && rest[0] != ' ' && rest[0] != '\t' then None
      else
        assert trimmed[..hashes][0] == '#';
        Some((hashes, TrimEnd(TrimEndChar(Trim(rest), '#'))))
  }

  function SetextUnderline(trimmed: string): (r: Option<nat>)
    ensures r.Some? ==> 1 <= r.value <= 2
  {
    if trimmed != "" && AllEqual(trimmed, '=') then Some(1)
    else if trimmed != "" && AllEqual(trimmed, '-') then Some(2)
    else None
  }

  /** A line is at most one of: fence opener, ATX heading, Setext underline. */
  lemma LineKindsAreExclusive(trimmed: string)
    ensures FenceOpen(trimmed).Some? ==>
              trimmed != "" && AtxHeading(trimmed) == None && SetextUnderline(trimmed) == None
    ensures AtxHeading(trimmed).Some? ==> trimmed != "" && SetextUnderline(trimmed) == None
  {
  }

  function Hashes(n: nat): (s: string)
    ensures |s| == n && AllEqual(s, '#')
  {
    seq(n, _ => '#')
  }

  lemma {:induction false} RunLengthIs(s: string, c: char, n: nat)
    requires n < |s| && AllEqual(s[..n], c) && s[n] != c
    ensures RunLength(s, c) == n
  {
    if 0 < n {
      assert s[..n][0] == c;
      assert s[1..][..n - 1] == s[..n][1..];
      RunLengthIs(s[1..], c, n - 1);
    }
  }

  /** A line of hashes, a space and something else is read as the level and what is left of the something. */
  lemma AtxHeadingReads(level: nat, rest: string)
    requires 1 <= level <= 6
    ensures AtxHeading(Hashes(level) + " " + rest)
         == Some((level, TrimEnd(TrimEndChar(TrimEnd(TrimStart(rest)), '#'))))
  {
    var line := Hashes(level) + " " + rest;
    assert line[..level] == Hashes(level) && line[level..] == " " + rest;
    RunLengthIs(line, '#', level);
    assert (" " + rest)[1..] == rest;
    assert IsWhitespace(' ');
  }

  /** Writing a heading and reading it back keeps its level, and its title exactly when that does not end in a hash. */
  lemma AtxRoundTrip(level: nat, title: string)
    requires 1 <= level <= 6 && Trim(title) == title
    ensures AtxHeading(Hashes(level) + " " + title) == Some((level, title)) <==>
              title == "" || title[|title| - 1] != '#'
  {
    AtxHeadingReads(level, title);
  }

  lemma {:induction false} HashesAreStripped(s: string, n: nat)
    requires s == "" || s[|s| - 1] != '#'
    ensures TrimEndChar(s + Hashes(n), '#') == s
  {
    var t := s + Hashes(n);
    if n == 0 {
      assert t == s;
    } else {
      assert t[..|t| - 1] == s + Hashes(n - 1);
      HashesAreStripped(s, n - 1);
    }
  }

  /** A closed heading gives back its title, even one that ends in a hash. */
  lemma ClosedAtxRoundTrip(level: nat, title: string, closing: nat)
    requires 1 <= level <= 6 && title != "" && Trim(title) == title && 1 <= closing
    ensures AtxHeading(Hashes(level) + " " + (title + " " + Hashes(closing))) == Some((level, title))
  {
    var rest := title + " " + Hashes(closing);
    AtxHeadingReads(level, rest);
    assert IsWhitespace(' ') && !IsWhitespace('#');
    assert rest[0] == title[0] && rest[|rest| - 1] == '#';
    HashesAreStripped(title + " ", closing);
    assert (title + " ")[..|title|] == title;
  }

  // ----- front matter -----

  predicate ClosesFrontMatter(line: string) {
    Trim(line) == "---" || Trim(line) == "..."
  }

  predicate OpensFrontMatter(lines: seq<string>) {
    lines != [] && Trim(lines[0]) == "---"
  }

  /** The block `lines[..n]` is front matter: delimited on both ends, closed as early as possible, within the bound. */
  predicate IsFrontMatter(lines: seq<string>, n: nat) {
    && OpensFrontMatter(lines)
    && 2 <= n <= Min(|lines|, FRONT_MATTER_MAX_SCAN + 1)
    && ClosesFrontMatter(lines[n - 1])
    && forall k :: 1 <= k < n - 1 ==> !ClosesFrontMatter(lines[k])
  }

  /** Index of the first line after front matter. */
  function ContentStart(lines: seq<string>): (start: nat)
    ensures start <= |lines|
    ensures start == 0 || IsFrontMatter(lines, start)
    ensures start == 0 ==> forall n :: !IsFrontMatter(lines, n)
  {
    if OpensFrontMatter(lines) then FrontMatterEnd(lines, 1) else 0
  }

  /** Front matter is told by its first line and its first closing line, which is among the 201 first. */
  lemma ContentStartExactly(lines: seq<string>, n: nat)
    ensures 0 < n && ContentStart(lines) == n <==>
              && 2 <= n <= |lines| && n <= 201
              && Trim(lines[0]) == "---" && Trim(lines[n - 1]) in {"---", "..."}
              && forall k :: 1 <= k < n - 1 ==> Trim(lines[k]) !in {"---", "..."}
  {
    hide Trim, FrontMatterEnd;
    var start := ContentStart(lines);
    if IsFrontMatter(lines, n) {
      assert IsFrontMatter(lines, start);
      assert !(n - 1 < start - 1) && !(start - 1 < n - 1);
    }
  }

  function FrontMatterEnd(lines: seq<string>, offset: nat): (start: nat)
    requires OpensFrontMatter(lines) && 1 <= offset
    requires forall k :: 1 <= k < offset && k < |lines| ==> !ClosesFrontMatter(lines[k])
    ensures start <= |lines|
    ensures start == 0 || IsFrontMatter(lines, start)
    ensures start == 0 ==> forall n :: !IsFrontMatter(lines, n)
    decreases |lines| - offset
  {
    if |lines| <= offset || FRONT_MATTER_MAX_SCAN < offset then 0
    else if ClosesFrontMatter(lines[offset]) then offset + 1
    else FrontMatterEnd(lines, offset + 1)
  }

  /** The title that a line of front matter gives, if it gives one that is not empty. */
  function TitleLine(line: string): Option<string> {
    var t := Trim(line);
    var rest := if StripPrefix(t, "title:").Some? then StripPrefix(t, "title:") else StripPrefix(t, "Title:");
    if rest == None then None
    else
      var v := TrimChar(TrimChar(Trim(rest.value), '"'), '\'');
      if v == "" then None else Some(v)
  }

  /** The title given last in `lines[1..n]`. */
  function LastTitle(lines: seq<string>, n: nat): Option<string>
    requires n <= |lines|
  {
    if n <= 1 then None
    else if TitleLine(lines[n - 1]).Some? then TitleLine(lines[n - 1])
    else LastTitle(lines, n - 1)
  }

  /** The title in the front matter, which ends with its closing line. */
  function FrontMatterTitle(lines: seq<string>): Option<string> {
    if ContentStart(lines) == 0 then None else LastTitle(lines, ContentStart(lines) - 1)
  }

  /** Of several titles the last one holds; and a block that is never closed has none. */
  lemma {:induction false} LastTitleIsLast(lines: seq<string>, n: nat, title: string)
    requires n <= |lines|
    ensures LastTitle(lines, n) == Some(title) <==>
              exists j :: 1 <= j < n && TitleLine(lines[j]) == Some(title) &&
                          forall m :: j < m < n ==> TitleLine(lines[m]) == None
  {
    hide TitleLine;
    if 1 < n {
      LastTitleIsLast(lines, n - 1, title);
      if TitleLine(lines[n - 1]) == Some(title) {
        assert 1 <= n - 1 < n && TitleLine(lines[n - 1]) == Some(title);
      }
    }
  }

  method ScanFrontMatter(lines: seq<string>) returns (title: Option<string>, start: nat)
    ensures title == FrontMatterTitle(lines) && start == ContentStart(lines)
  {
    hide Trim, TrimChar;
    title := None;
    if !OpensFrontMatter(lines) {
      return None, 0;
    }
    var offset := 1;
    while offset < |lines| && offset <= FRONT_MATTER_MAX_SCAN
      invariant 1 <= offset <= |lines|
      invariant forall k :: 1 <= k < offset && k < |lines| ==> !ClosesFrontMatter(lines[k])
      invariant ContentStart(lines) == FrontMatterEnd(lines, offset)
      invariant title == LastTitle(lines, offset)
      decreases |lines| - offset
    {
      var t := Trim(lines[offset]);
      if t == "---" || t == "..." {
        return title, offset + 1;
      }
      var rest := StripPrefix(t, "title:");
      if rest == None {
        rest := StripPrefix(t, "Title:");
      }
      if rest.Some? {
        var v := TrimChar(TrimChar(Trim(rest.value), '"'), '\'');
        if v != "" {
          title := Some(v);
        }
      }
      offset := offset + 1;
    }
    return None, 0;
  }

  // ----- what is a heading -----

  /** `lines[i]` is ordinary text as far as fences, blank lines and ATX headings go. */
  predicate IsPlain(lines: seq<string>, from: nat, i: nat)
    requires from <= i < |lines|
  {
    var t := Trim(lines[i]);
    !IsFenced(lines, from, i) && t != "" && AtxHeading(t) == None
  }

  /** `lines[i]` is text that a Setext underline on the next line would turn into a heading. */
  predicate IsParagraphLine(lines: seq<string>, from: nat, i: nat)
    requires from <= i < |lines|
    decreases i
  {
    && IsPlain(lines, from, i)
    && !(SetextUnderline(Trim(lines[i])).Some? && from < i && IsParagraphLine(lines, from, i - 1))
  }

  /** `lines[i]` underlines the paragraph line just above it. */
  predicate IsUnderline(lines: seq<string>, from: nat, i: nat)
    requires from <= i < |lines|
  {
    IsPlain(lines, from, i) && SetextUnderline(Trim(lines[i])).Some? && from < i && IsParagraphLine(lines, from, i - 1)
  }

  /** The heading that `lines[i]` completes, if any.  A Setext heading sits on the line above its underline. */
  function HeadingAt(lines: seq<string>, from: nat, i: nat): Option<RawHeading>
    requires from <= i < |lines|
  {
    var t := Trim(lines[i]);
    if !IsFenced(lines, from, i) && t != "" && AtxHeading(t).Some? then
      Some(RawHeading(AtxHeading(t).value.0, AtxHeading(t).value.1, i + 1))
    else if IsUnderline(lines, from, i) then
      Some(RawHeading(SetextUnderline(t).value, Trim(lines[i - 1]), i))
    else None
  }

  /** Headings completed by `lines[from..i]`, in order. */
  function Headings(lines: seq<string>, from: nat, i: nat): seq<RawHeading>
    requires from <= i <= |lines|
    decreases i
  {
    if i == from then []
    else
      var before := Headings(lines, from, i - 1);
      match HeadingAt(lines, from, i - 1)
      case Some(h) => before + [h]
      case None => before
  }

  function ScanOf(lines: seq<string>): ScanResult {
    var start := ContentStart(lines);
    ScanResult(FrontMatterTitle(lines), start, Headings(lines, start, |lines|), |lines|)
  }

  function PendingBefore(lines: seq<string>, from: nat, i: nat): Option<(nat, string)>
    requires from <= i <= |lines|
  {
    if from < i && IsParagraphLine(lines, from, i - 1) then Some((i, Trim(lines[i - 1]))) else None
  }

  /** What one line does to the pending paragraph line. */
  lemma PendingStep(lines: seq<string>, from: nat, i: nat)
    requires from <= i < |lines|
    ensures var t, pending := Trim(lines[i]), PendingBefore(lines, from, i);
            PendingBefore(lines, from, i + 1) ==
              if || FenceBefore(lines, from, i).Some? || FenceOpen(t).Some? || t == "" || AtxHeading(t).Some?
                 || (SetextUnderline(t).Some? && pending.Some?)
              then None
              else Some((i + 1, t))
  {
    hide Trim, FenceOpen, FenceBefore, AtxHeading, SetextUnderline;
  }

  /** What one line does to the headings. */
  lemma HeadingsStep(lines: seq<string>, from: nat, i: nat)
    requires from <= i < |lines|
    ensures var t, pending, hs := Trim(lines[i]), PendingBefore(lines, from, i), Headings(lines, from, i);
            Headings(lines, from, i + 1) ==
              if FenceBefore(lines, from, i).Some? || FenceOpen(t).Some? || t == "" then hs
              else if AtxHeading(t).Some? then hs + [RawHeading(AtxHeading(t).value.0, AtxHeading(t).value.1, i + 1)]
              else if SetextUnderline(t).Some? && pending.Some? then
                hs + [RawHeading(SetextUnderline(t).value, pending.value.1, pending.value.0)]
              else hs
  {
    hide Trim, FenceOpen, FenceBefore, AtxHeading, SetextUnderline, IsParagraphLine;
  }

  lemma NothingScanned(lines: seq<string>, from: nat)
    requires from <= |lines|
    ensures FenceBefore(lines, from, from) == None && PendingBefore(lines, from, from) == None
    ensures Headings(lines, from, from) == []
  {
  }

  method Scan(lines: seq<string>) returns (r: ScanResult)
    ensures r == ScanOf(lines)
  {
    hide Trim, FenceOpen, IsFenceClose, AtxHeading, SetextUnderline, FenceBefore, PendingBefore, Headings;
    var title, contentStart := ScanFrontMatter(lines);
    NothingScanned(lines, contentStart);
    var headings: seq<RawHeading> := [];
    var fence: Option<Fence> := None;
    var pendingPara: Option<(nat, string)> := None;
    var i := contentStart;
    while i < |lines|
      invariant contentStart <= i <= |lines|
      invariant fence == FenceBefore(lines, contentStart, i)
      invariant pendingPara == PendingBefore(lines, contentStart, i)
      invariant headings == Headings(lines, contentStart, i)
    {
      var trimmed := Trim(lines[i]);
      FenceStep(lines, contentStart, i);
      PendingStep(lines, contentStart, i);
      HeadingsStep(lines, contentStart, i);
      if fence.Some? {
        if IsFenceClose(trimmed, fence.value) {
          fence := None;
        }
        pendingPara := None;
        i := i + 1;
        continue;
      }
      var opener := FenceOpen(trimmed);
      if opener.Some? {
        fence := opener;
        pendingPara := None;
        i := i + 1;
        continue;
      }
      if trimmed == "" {
        pendingPara := None;
        i := i + 1;
        continue;
      }
      var atx := AtxHeading(trimmed);
      if atx.Some? {
        headings := headings + [RawHeading(atx.value.0, atx.value.1, i + 1)];
        pendingPara := None;
        i := i + 1;
        continue;
      }
      var underline := SetextUnderline(trimmed);
      if underline.Some? && pendingPara.Some? {
        headings := headings + [RawHeading(underline.value, pendingPara.value.1, pendingPara.value.0)];
        pendingPara := None;
        i := i + 1;
        continue;
      }
      pendingPara := Some((i + 1, trimmed));
      i := i + 1;
    }
    r := ScanResult(title, contentStart, headings, |lines|);
  }

  // ----- where headings are -----

  /** Heading lines lie in the content, each strictly after the one before. */
  predicate HeadingsInOrder(hs: seq<RawHeading>, from: nat, last: nat) {
    && (forall k :: 0 <= k < |hs| ==> from < hs[k].line <= last)
    && (forall j, k :: 0 <= j < k < |hs| ==> hs[j].line < hs[k].line)
    && (forall k :: 0 <= k < |hs| ==> 1 <= hs[k].level <= 6)
  }

  lemma HeadingAtPosition(lines: seq<string>, from: nat, i: nat)
    requires from <= i < |lines|
    ensures var h := HeadingAt(lines, from, i);
            && (h.Some? ==> 1 <= h.value.level <= 6 && (h.value.line == i + 1 || h.value.line == i))
            && (h.Some? && h.value.line == i ==> from < i && IsParagraphLine(lines, from, i - 1))
            && (IsParagraphLine(lines, from, i) ==> h == None)
  {
    hide Trim, FenceOpen, IsFenced, AtxHeading, SetextUnderline;
    LineKindsAreExclusive(Trim(lines[i]));
  }

  lemma NoneInOrder(from: nat, last: nat)
    ensures HeadingsInOrder([], from, last)
  {
  }

  lemma InOrderSnoc(hs: seq<RawHeading>, h: RawHeading, from: nat, before: nat, last: nat)
    requires HeadingsInOrder(hs, from, before) && from <= before < h.line <= last && 1 <= h.level <= 6
    ensures HeadingsInOrder(hs + [h], from, last)
  {
  }

  lemma InOrderWidens(hs: seq<RawHeading>, from: nat, before: nat, last: nat)
    requires HeadingsInOrder(hs, from, before) && before <= last
    ensures HeadingsInOrder(hs, from, last)
  {
  }

  lemma {:induction false} HeadingsAreInOrder(lines: seq<string>, from: nat, i: nat)
    requires from <= i <= |lines|
    ensures HeadingsInOrder(Headings(lines, from, i), from, i)
    ensures from < i && IsParagraphLine(lines, from, i - 1) ==> HeadingsInOrder(Headings(lines, from, i), from, i - 1)
    decreases i
  {
    hide HeadingAt, IsParagraphLine, HeadingsInOrder;
    if from == i {
      NoneInOrder(from, i);
    } else {
      HeadingsAreInOrder(lines, from, i - 1);
      HeadingAtPosition(lines, from, i - 1);
      var hs, h := Headings(lines, from, i - 1), HeadingAt(lines, from, i - 1);
      if h == None {
        InOrderWidens(hs, from, i - 1, i);
      } else if h.value.line == i {
        InOrderSnoc(hs, h.value, from, i - 1, i);
      } else {
        InOrderSnoc(hs, h.value, from, i - 2, i);
      }
    }
  }

  /**
   * No heading stands on a fenced line, and no fence is open on either side of
   * a heading's own line.  So a section that starts at a heading never starts
   * inside a fence, nor does its body.
   */
  lemma {:induction false} HeadingsStandOutsideFences(lines: seq<string>, from: nat, i: nat, k: nat)
    requires from <= i <= |lines| && k < |Headings(lines, from, i)|
    ensures var line := Headings(lines, from, i)[k].line;
            && from < line <= |lines|
            && !IsFenced(lines, from, line - 1)
            && FenceBefore(lines, from, line - 1) == None
            && FenceBefore(lines, from, line) == None
    decreases i
  {
    hide Trim, FenceOpen, IsFenceClose, AtxHeading, SetextUnderline;
    HeadingsAreInOrder(lines, from, i);
    if k < |Headings(lines, from, i - 1)| {
      HeadingsStandOutsideFences(lines, from, i - 1, k);
    } else if IsUnderline(lines, from, i - 1) {
      assert IsPlain(lines, from, i - 2);
    }
  }

  /** A heading is an ATX line or a paragraph line with an underline below it; and every such line is one. */
  lemma {:induction false} HeadingsAreExactly(lines: seq<string>, from: nat, i: nat, h: RawHeading)
    requires from <= i <= |lines|
    ensures h in Headings(lines, from, i) <==> exists j :: from <= j < i && HeadingAt(lines, from, j) == Some(h)
    decreases i
  {
    hide HeadingAt;
    if from < i {
      HeadingsAreExactly(lines, from, i - 1, h);
      if h in Headings(lines, from, i) && h !in Headings(lines, from, i - 1) {
        assert HeadingAt(lines, from, i - 1) == Some(h);
      }
    }
  }
}
