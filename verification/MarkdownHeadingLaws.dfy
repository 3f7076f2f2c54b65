// Headings and titles, said of the characters of their lines; and documents made
// of headings, which are read back.
module MarkdownHeadingLaws {
  import opened Basics
  import opened Text
  import opened MarkdownFences
  import opened MarkdownScan
  import opened MarkdownStability

  // ----- one ATX line -----

  /** What follows the hashes is the title in white space, then closing hashes in white space, if there are any. */
  ghost predicate IsAtxTitle(rest: string, title: string) {
    exists a: nat, b: nat, c: nat, d: nat :: AtxParts(rest, title, a, b, c, d)
  }

  predicate AtxParts(rest: string, title: string, a: nat, b: nat, c: nat, d: nat) {
    && a <= b <= c <= d <= |rest|
    && AllWhitespace(rest[..a]) && AllWhitespace(rest[b..c]) && AllWhitespace(rest[d..])
    && rest[a..b] == title && AllEqual(rest[c..d], '#')
    && (title != "" ==> !IsWhitespace(title[0]) && !IsWhitespace(title[|title| - 1]))
    && (b == c && title != "" ==> title[|title| - 1] != '#')
    && (c == d ==> b == c)
  }

  lemma {:induction false} TrimEndCharCuts(s: string, c: char)
    ensures AllEqual(s[|TrimEndChar(s, c)|..], c)
  {
    if s != "" && s[|s| - 1] == c {
      TrimEndCharCuts(s[..|s| - 1], c);
      assert s[|TrimEndChar(s, c)|..] == s[..|s| - 1][|TrimEndChar(s, c)|..] + [c];
    }
  }

  lemma {:induction false} TrimEndCharIs(s: string, tail: string, c: char)
    requires AllEqual(tail, c) && (s == "" || s[|s| - 1] != c)
    ensures TrimEndChar(s + tail, c) == s
    decreases |tail|
  {
    if tail == "" {
      assert s + tail == s;
    } else {
      assert (s + tail)[..|s + tail| - 1] == s + tail[..|tail| - 1];
      TrimEndCharIs(s, tail[..|tail| - 1], c);
    }
  }

  function TitleOfRest(rest: string): string {
    TrimEnd(TrimEndChar(Trim(rest), '#'))
  }

  lemma TitleHasParts(rest: string)
    ensures IsAtxTitle(rest, TitleOfRest(rest))
  {
    hide IsWhitespace, Trim, TrimEnd, TrimEndChar;
    var left, right := TrimIsMiddle(rest);
    var x := Trim(rest);
    var y := TrimEndChar(x, '#');
    var z := TrimEnd(y);
    TrimEndCharCuts(x, '#');
    TrimEndIsPrefix(y);
    var a, b, c, d := left, left + |z|, left + |y|, right;
    assert rest[a..b] == x[..|z|] && rest[b..c] == y[|z|..] && rest[c..d] == x[|y|..];
    TrimOfTrimmed(x);
    assert AtxParts(rest, z, a, b, c, d);
  }

  lemma TrimOfTrimmed(x: string)
    requires x == "" || !IsWhitespace(x[|x| - 1])
    ensures TrimEnd(x) == x
  {
  }

  lemma PartsGiveTitle(rest: string, title: string, a: nat, b: nat, c: nat, d: nat)
    requires AtxParts(rest, title, a, b, c, d)
    ensures TitleOfRest(rest) == title
  {
    hide IsWhitespace, Trim, TrimEnd, TrimEndChar;
    HashIsNoSpace();
    if title == "" {
      var left, hashes := rest[..c], rest[c..d];
      assert left == rest[..a] + rest[b..c];
      assert rest == left + hashes + rest[d..];
      TrimIs(left, hashes, rest[d..]);
      assert "" + hashes == hashes;
      TrimEndCharIs("", hashes, '#');
      TrimOfTrimmed("");
    } else {
      var space, hashes := rest[b..c], rest[c..d];
      var x := title + space + hashes;
      assert rest == rest[..a] + x + rest[d..];
      TrimIs(rest[..a], x, rest[d..]);
      TrimEndCharIs(title + space, hashes, '#');
      TrimEndIs(title, space);
    }
  }

  lemma HashIsNoSpace()
    ensures !IsWhitespace('#')
  {
  }

  /** A line is an ATX heading exactly if it reads as one, with one to six hashes and then a blank, a tab or nothing. */
  lemma AtxHeadingExactly(t: string, level: nat, title: string)
    ensures AtxHeading(t) == Some((level, title)) <==>
              && 1 <= level <= 6 && level <= |t|
              && (forall k :: 0 <= k < level ==> t[k] == '#')
              && (level < |t| ==> t[level] == ' ' || t[level] == '\t')
              && IsAtxTitle(t[level..], title)
  {
    hide IsAtxTitle, Trim, TrimEnd, TrimEndChar;
    var n := RunLength(t, '#');
    assert forall k :: 0 <= k < n ==> t[k] == t[..n][k];
    if level <= |t| && (forall k :: 0 <= k < level ==> t[k] == '#') && (level < |t| ==> t[level] != '#') {
      assert n == level;
    }
    if level <= |t| {
      TitleIff(t[level..], title);
    }
  }

  lemma TitleIff(rest: string, title: string)
    ensures IsAtxTitle(rest, title) <==> TitleOfRest(rest) == title
  {
    hide AtxParts, TitleOfRest;
    TitleHasParts(rest);
    if a: nat, b: nat, c: nat, d: nat :| AtxParts(rest, title, a, b, c, d) {
      PartsGiveTitle(rest, title, a, b, c, d);
    }
  }

  // ----- Setext underlines -----

  /** Ordinary text that consists of `=` or of `-` alone. */
  predicate LooksLikeUnderline(lines: seq<string>, from: nat, i: nat)
    requires from <= i < |lines|
  {
    var t := Trim(lines[i]);
    IsPlain(lines, from, i) && (AllEqual(t, '=') || AllEqual(t, '-'))
  }

  lemma LooksExactly(lines: seq<string>, from: nat, i: nat)
    requires from <= i < |lines|
    ensures LooksLikeUnderline(lines, from, i) <==>
              IsPlain(lines, from, i) && SetextUnderline(Trim(lines[i])).Some?
  {
    hide Trim, IsFenced, AtxHeading;
  }

  /** How many lines in a row, up to this one, look like underlines. */
  function UnderlinesUpTo(lines: seq<string>, from: nat, i: nat): (n: nat)
    requires from <= i < |lines|
    ensures n <= i + 1 - from
    decreases i
  {
    if !LooksLikeUnderline(lines, from, i) then 0
    else if i == from then 1
    else UnderlinesUpTo(lines, from, i - 1) + 1
  }

  /**
   * Of lines in a row that look like underlines every other one is: beginning
   * with the first if a line of text stands above them all, else with the second.
   */
  lemma {:induction false} UnderlinesAlternate(lines: seq<string>, from: nat, i: nat)
    requires from <= i < |lines| && LooksLikeUnderline(lines, from, i)
    ensures var n := UnderlinesUpTo(lines, from, i);
            var textAbove := from + n <= i && IsPlain(lines, from, i - n);
            && (IsUnderline(lines, from, i) <==> (n % 2 == 1 <==> textAbove))
            && (IsParagraphLine(lines, from, i) <==> !IsUnderline(lines, from, i))
    decreases i
  {
    hide Trim, IsFenced, AtxHeading, IsPlain, SetextUnderline, AllEqual;
    LooksExactly(lines, from, i);
    if from < i {
      LooksExactly(lines, from, i - 1);
    }
    if from < i && LooksLikeUnderline(lines, from, i - 1) {
      UnderlinesAlternate(lines, from, i - 1);
    }
  }

  /** The level is told by the character: `=` for 1, `-` for 2; the text stands on the line above. */
  lemma SetextHeadingIs(lines: seq<string>, from: nat, i: nat)
    requires from <= i < |lines| && IsUnderline(lines, from, i)
    ensures from < i
    ensures var t := Trim(lines[i]);
            && t != ""
            && (AllEqual(t, '=') ==> HeadingAt(lines, from, i) == Some(RawHeading(1, Trim(lines[i - 1]), i)))
            && (AllEqual(t, '-') ==> HeadingAt(lines, from, i) == Some(RawHeading(2, Trim(lines[i - 1]), i)))
  {
    hide Trim, IsFenced, AtxHeading;
  }

  // ----- documents of headings -----

  datatype Entry = Atx(level: nat, title: string) | Setext(level: nat, title: string, width: nat)

  function LinesOfEntry(e: Entry): (r: seq<string>)
    ensures 1 <= |r| <= 2
  {
    match e
    case Atx(level, title) => [Hashes(level) + " " + title]
    case Setext(level, title, width) => [title, Underline(if level == 1 then '=' else '-', width)]
  }

  function Underline(c: char, width: nat): (s: string)
    ensures |s| == width && AllEqual(s, c)
  {
    seq(width, _ => c)
  }

  /** The title has no blanks around it and reads as nothing else. */
  predicate IsEntry(e: Entry) {
    && e.title != "" && Trim(e.title) == e.title
    && match e
       case Atx(level, title) => 1 <= level <= 6 && title[|title| - 1] != '#'
       case Setext(level, title, width) =>
         && 1 <= level <= 2 && 1 <= width
         && FenceOpen(title) == None && AtxHeading(title) == None && SetextUnderline(title) == None
  }

  predicate AllEntries(entries: seq<Entry>) {
    forall k :: 0 <= k < |entries| ==> IsEntry(entries[k])
  }

  function LinesOfEntries(entries: seq<Entry>): seq<string> {
    if entries == [] then []
    else LinesOfEntries(entries[..|entries| - 1]) + LinesOfEntry(entries[|entries| - 1])
  }

  function HeadingsOfEntries(entries: seq<Entry>): seq<RawHeading> {
    if entries == [] then []
    else
      var before, e := entries[..|entries| - 1], entries[|entries| - 1];
      HeadingsOfEntries(before) + [RawHeading(e.level, e.title, |LinesOfEntries(before)| + 1)]
  }

  lemma AtxLine(e: Entry)
    requires IsEntry(e) && e.Atx?
    ensures var line := Hashes(e.level) + " " + e.title;
            && Trim(line) == line && FenceOpen(line) == None && line != ""
            && AtxHeading(line) == Some((e.level, e.title)) && Trim(line) != "---"
  {
    hide TrimEndChar;
    var line := Hashes(e.level) + " " + e.title;
    assert !IsWhitespace('#') && line[0] == '#' && line[|line| - 1] == e.title[|e.title| - 1];
    AtxRoundTrip(e.level, e.title);
  }

  lemma UnderlineLine(c: char, width: nat)
    requires (c == '=' || c == '-') && 1 <= width
    ensures var line := Underline(c, width);
            && Trim(line) == line && line != "" && FenceOpen(line) == None && AtxHeading(line) == None
            && SetextUnderline(line) == Some(if c == '=' then 1 else 2)
  {
    var line := Underline(c, width);
    assert !IsWhitespace(c) && line[0] == c && line[|line| - 1] == c;
  }

  /** Two more lines of no fence. */
  lemma FencesStayShut(lines: seq<string>, m: nat, n: nat)
    requires m <= n <= |lines| && n <= m + 2 && FenceBefore(lines, 0, m) == None
    requires forall i :: m <= i < n ==> FenceOpen(Trim(lines[i])) == None
    ensures FenceBefore(lines, 0, n) == None && (m < n ==> FenceBefore(lines, 0, m + 1) == None)
  {
    hide Trim, FenceOpen, FenceBefore;
    if m < n {
      FenceStep(lines, 0, m);
      if m + 1 < n {
        FenceStep(lines, 0, m + 1);
      }
    }
  }

  lemma AtxIsRead(before: seq<string>, e: Entry)
    requires IsEntry(e) && e.Atx? && FenceBefore(before, 0, |before|) == None
    ensures var lines := before + LinesOfEntry(e);
            && FenceBefore(lines, 0, |lines|) == None
            && Headings(lines, 0, |lines|) ==
                 Headings(before, 0, |before|) + [RawHeading(e.level, e.title, |before| + 1)]
  {
    hide Trim, FenceOpen, AtxHeading, FenceBefore, Headings;
    var more := LinesOfEntry(e);
    var lines := before + more;
    AtxLine(e);
    FenceLocal(before, more, 0, |before|);
    HeadingsLocal(before, more, 0, |before|);
    assert lines[|before|] == more[0];
    FencesStayShut(lines, |before|, |lines|);
    HeadingsStep(lines, 0, |before|);
  }

  lemma SetextIsRead(before: seq<string>, e: Entry)
    requires IsEntry(e) && e.Setext? && FenceBefore(before, 0, |before|) == None
    ensures var lines := before + LinesOfEntry(e);
            && FenceBefore(lines, 0, |lines|) == None
            && Headings(lines, 0, |lines|) ==
                 Headings(before, 0, |before|) + [RawHeading(e.level, e.title, |before| + 1)]
  {
    hide Trim, FenceOpen, AtxHeading, SetextUnderline, FenceBefore, Headings, PendingBefore;
    var more := LinesOfEntry(e);
    var lines, m := before + more, |before|;
    UnderlineLine(if e.level == 1 then '=' else '-', e.width);
    FenceLocal(before, more, 0, m);
    HeadingsLocal(before, more, 0, m);
    assert lines[m] == more[0] && lines[m + 1] == more[1];
    FencesStayShut(lines, m, |lines|);
    HeadingsStep(lines, 0, m);
    PendingStep(lines, 0, m);
    HeadingsStep(lines, 0, m + 1);
  }

  lemma {:induction false} EntriesAreRead(entries: seq<Entry>)
    requires AllEntries(entries)
    ensures var lines := LinesOfEntries(entries);
            FenceBefore(lines, 0, |lines|) == None && Headings(lines, 0, |lines|) == HeadingsOfEntries(entries)
    decreases |entries|
  {
    hide IsEntry, FenceBefore, Headings, LinesOfEntry;
    if entries == [] {
      NothingScanned([], 0);
    } else {
      var before, e := entries[..|entries| - 1], entries[|entries| - 1];
      EntriesAreRead(before);
      if e.Atx? {
        AtxIsRead(LinesOfEntries(before), e);
      } else {
        SetextIsRead(LinesOfEntries(before), e);
      }
    }
  }

  lemma {:induction false} FirstEntry(entries: seq<Entry>)
    requires AllEntries(entries) && entries != []
    ensures LinesOfEntries(entries) != [] && LinesOfEntries(entries)[0] == LinesOfEntry(entries[0])[0]
    decreases |entries|
  {
    hide IsEntry, LinesOfEntry;
    if 1 < |entries| {
      FirstEntry(entries[..|entries| - 1]);
    } else {
      assert LinesOfEntries([]) == [];
    }
  }

  /** Headings written out one below the other, as ATX lines or with underlines, are all read back. */
  lemma WrittenHeadingsReadBack(entries: seq<Entry>)
    requires AllEntries(entries)
    ensures ScanOf(LinesOfEntries(entries)).headings == HeadingsOfEntries(entries)
  {
    hide FenceBefore, Headings, FrontMatterTitle, LinesOfEntries, HeadingsOfEntries;
    EntriesAreRead(entries);
    NoLinesOfNothing();
    if entries != [] {
      FirstEntry(entries);
      FirstIsNoDelimiter(entries[0]);
    }
  }

  lemma NoLinesOfNothing()
    ensures LinesOfEntries([]) == []
  {
  }

  lemma FirstIsNoDelimiter(e: Entry)
    requires IsEntry(e)
    ensures Trim(LinesOfEntry(e)[0]) != "---"
  {
    hide Trim, FenceOpen, AtxHeading;
    if e.Atx? {
      AtxLine(e);
    }
  }

  // ----- titles in front matter -----

  /** One mark before other text is trimmed. */
  lemma {:induction false} TrimStartCharIs(s: string, c: char)
    ensures (s == "" || s[0] != c) ==> TrimStartChar(s, c) == s && TrimStartChar([c] + s, c) == s
  {
    assert ([c] + s)[1..] == s;
  }

  lemma TrimCharIs(s: string, c: char)
    requires s != "" && s[0] != c && s[|s| - 1] != c
    ensures TrimChar(s, c) == s && TrimChar([c] + s + [c], c) == s
  {
    hide TrimStartChar, TrimEndChar;
    TrimStartCharIs(s, c);
    TrimStartCharIs(s + [c], c);
    assert [c] + s + [c] == [c] + (s + [c]);
    TrimEndCharIs(s, [c], c);
    TrimEndCharIs(s, "", c);
    assert s + "" == s;
  }

  /** A value with neither white space nor quotes at its ends. */
  predicate IsValue(v: string) {
    && v != "" && !IsWhitespace(v[0]) && !IsWhitespace(v[|v| - 1])
    && v[0] != '"' && v[|v| - 1] != '"' && v[0] != '\'' && v[|v| - 1] != '\''
  }

  /** A title is read with or without quotes around it, and with white space anywhere between. */
  lemma TitleLineReads(left: string, key: string, space: string, quote: string, v: string, right: string)
    requires AllWhitespace(left) && AllWhitespace(space) && AllWhitespace(right)
    requires (key == "title:" || key == "Title:") && (quote == "" || quote == "\"" || quote == "'") && IsValue(v)
    ensures TitleLine(left + (key + space + (quote + v + quote)) + right) == Some(v)
  {
    hide Trim, TrimChar, IsWhitespace;
    var quoted := quote + v + quote;
    var t := key + space + quoted;
    KeysAndQuotes();
    assert quoted[0] == if quote == "" then v[0] else quote[0];
    assert quoted[|quoted| - 1] == if quote == "" then v[|v| - 1] else quote[0];
    assert t[0] == key[0] && t[|t| - 1] == quoted[|quoted| - 1];
    TrimIs(left, t, right);
    assert t[..6] == key && t[6..] == space + quoted;
    assert space + quoted == space + quoted + "";
    TrimIs(space, quoted, "");
    TrimCharIs(v, '"');
    TrimCharIs(v, '\'');
    if quote == "" {
      assert quoted == v;
    } else if quote == "'" {
      assert quoted == ['\''] + v + ['\''];
      TrimCharIs(quoted, '"');
    } else {
      assert quoted == ['"'] + v + ['"'];
    }
  }

  lemma KeysAndQuotes()
    ensures !IsWhitespace('t') && !IsWhitespace('T') && !IsWhitespace('"') && !IsWhitespace('\'')
    ensures !("title:" <= "Title:") && |"title:"| == |"Title:"| == 6
  {
    assert "title:"[0] != "Title:"[0];
  }

  /** A line that begins otherwise gives no title. */
  lemma NoOtherTitle(line: string)
    requires !("title:" <= Trim(line)) && !("Title:" <= Trim(line))
    ensures TitleLine(line) == None
  {
    hide Trim, TrimChar;
  }
}
