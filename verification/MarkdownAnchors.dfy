// Anchors: heading trails as slugs, and the two suffixes that keep anchors of
// one file apart.
module MarkdownAnchors {
  import opened Text

  const SLUG_SEGMENT_MAX_CHARS: nat := 48
  const SLUG_TRAIL_MAX_CHARS: nat := 160
  const PREAMBLE_ANCHOR: string := "_preamble"

  predicate IsReserved(c: char) {
    c == '-' || c == '/' || c == '_' || c == '~' || c == '#'
  }

  // `char::is_alphanumeric`.  All that matters here is that it rejects the
  // characters anchors use as punctuation; the Unicode tables are not modelled.
  type Alphanumeric = f: char -> bool | forall c :: IsReserved(c) ==> !f(c) witness c => false

  /** `char::to_ascii_lowercase` */
  function AsciiLower(c: char): char {
    if 'A' <= c <= 'Z' then (c as int + 32) as char else c
  }

  // ----- one segment -----

  /** The words of a heading: its maximal runs of alphanumeric characters, in lower case. */
  function Words(alnum: Alphanumeric, text: string): (w: seq<string>)
    ensures forall k :: 0 <= k < |w| ==> w[k] != ""
    decreases |text|
  {
    if text == "" then []
    else
      var last := |text| - 1;
      var before := Words(alnum, text[..last]);
      if !alnum(text[last]) then before
      else if last > 0 && alnum(text[last - 1]) && before != [] then
        before[|before| - 1 := before[|before| - 1] + [AsciiLower(text[last])]]
      else before + [[AsciiLower(text[last])]]
  }

  function Dashed(words: seq<string>): string {
    if words == [] then ""
    else if |words| == 1 then words[0]
    else Dashed(words[..|words| - 1]) + "-" + words[|words| - 1]
  }

  /** The words joined by single dashes, or `section` when there are none; cut to length, never ending in a dash. */
  function Slug(alnum: Alphanumeric, text: string): string {
    var words := Words(alnum, text);
    var slug := if words == [] then "section" else Dashed(words);
    if |slug| <= SLUG_SEGMENT_MAX_CHARS then slug
    else StripDashes(slug[..SLUG_SEGMENT_MAX_CHARS])
  }

  function StripDashes(s: string): (r: string)
    ensures r <= s && (r != "" ==> r[|r| - 1] != '-')
  {
    if s != "" && s[|s| - 1] == '-' then StripDashes(s[..|s| - 1]) else s
  }

  /** Scanning state after a prefix: its dashed words, and one dash if it ends outside a word. */
  function SlugSoFar(alnum: Alphanumeric, prefix: string): string {
    Dashed(Words(alnum, prefix)) + (if EndsInDash(alnum, prefix) then "-" else "")
  }

  predicate EndsInDash(alnum: Alphanumeric, prefix: string) {
    prefix != "" && !alnum(prefix[|prefix| - 1]) && Words(alnum, prefix) != []
  }

  method SlugifySegment(alnum: Alphanumeric, text: string) returns (slug: string)
    ensures slug == Slug(alnum, text)
  {
    hide Words, Dashed, SlugSoFar, EndsInDash, StripDashes, Slug, AsciiLower;
    slug := "";
    var lastWasDash := false;
    SlugStart(alnum);
    var i := 0;
    while i < |text|
      invariant 0 <= i <= |text|
      invariant slug == SlugSoFar(alnum, text[..i])
      invariant lastWasDash == EndsInDash(alnum, text[..i])
    {
      var c := text[i];
      SlugStep(alnum, text[..i], c);
      assert text[..i + 1] == text[..i] + [c];
      if alnum(c) {
        slug := slug + [AsciiLower(c)];
        lastWasDash := false;
      } else if !lastWasDash && slug != "" {
        slug := slug + "-";
        lastWasDash := true;
      }
      i := i + 1;
    }
    assert text[..i] == text;
    SlugOfWhole(alnum, text);
    slug := PopDashes(slug);
    if slug == "" {
      slug := "section";
    }
    if |slug| > SLUG_SEGMENT_MAX_CHARS {
      slug := PopDashes(slug[..SLUG_SEGMENT_MAX_CHARS]);
    }
  }

  lemma SlugStart(alnum: Alphanumeric)
    ensures SlugSoFar(alnum, "") == "" && !EndsInDash(alnum, "")
  {
  }

  /** What is left to do once all of the text is scanned. */
  lemma SlugOfWhole(alnum: Alphanumeric, text: string)
    ensures var scanned := StripDashes(SlugSoFar(alnum, text));
            var slug := if scanned == "" then "section" else scanned;
            Slug(alnum, text) ==
              if |slug| <= SLUG_SEGMENT_MAX_CHARS then slug else StripDashes(slug[..SLUG_SEGMENT_MAX_CHARS])
  {
    hide Words, Dashed, StripDashes, EndsInDash;
    var words := Words(alnum, text);
    WordsAreUnreserved(alnum, text);
    DashedEndsInWord(words);
    DashedNonEmpty(words);
    StripOneDash(Dashed(words));
    assert Dashed(words) + "" == Dashed(words);
  }

  method PopDashes(s: string) returns (r: string)
    ensures r == StripDashes(s)
  {
    r := s;
    while r != "" && r[|r| - 1] == '-'
      invariant StripDashes(r) == StripDashes(s)
      decreases |r|
    {
      r := r[..|r| - 1];
    }
  }

  lemma {:induction false} WordsOfPrefix(alnum: Alphanumeric, text: string)
    ensures text != "" && alnum(text[|text| - 1]) ==> Words(alnum, text) != []
  {
  }

  lemma DashedSnoc(words: seq<string>, w: string)
    ensures Dashed(words + [w]) == (if words == [] then w else Dashed(words) + "-" + w)
  {
    assert (words + [w])[..|words|] == words;
  }

  lemma DashedExtend(words: seq<string>, c: char)
    requires words != []
    ensures Dashed(words[|words| - 1 := words[|words| - 1] + [c]]) == Dashed(words) + [c]
  {
    var longer := words[|words| - 1 := words[|words| - 1] + [c]];
    assert longer[..|words| - 1] == words[..|words| - 1];
  }

  /** One more character: what the loop appends and what the words become. */
  lemma SlugStep(alnum: Alphanumeric, p: string, c: char)
    ensures EndsInDash(alnum, p) ==> SlugSoFar(alnum, p) != ""
    ensures alnum(c) ==>
              && SlugSoFar(alnum, p + [c]) == SlugSoFar(alnum, p) + [AsciiLower(c)]
              && !EndsInDash(alnum, p + [c])
    ensures !alnum(c) ==>
              && SlugSoFar(alnum, p + [c]) ==
                 (if EndsInDash(alnum, p) || SlugSoFar(alnum, p) == "" then SlugSoFar(alnum, p)
                  else SlugSoFar(alnum, p) + "-")
              && EndsInDash(alnum, p + [c]) == (SlugSoFar(alnum, p) != "")
  {
    hide AsciiLower;
    assert (p + [c])[..|p|] == p;
    var words := Words(alnum, p);
    DashedNonEmpty(words);
    if alnum(c) {
      if p != "" && alnum(p[|p| - 1]) {
        WordsOfPrefix(alnum, p);
        DashedExtend(words, AsciiLower(c));
      } else {
        WordsOfGap(alnum, p);
        DashedSnoc(words, [AsciiLower(c)]);
      }
    }
  }

  lemma WordsOfGap(alnum: Alphanumeric, p: string)
    requires p == "" || !alnum(p[|p| - 1])
    ensures EndsInDash(alnum, p) <==> Words(alnum, p) != []
  {
  }

  lemma DashedNonEmpty(words: seq<string>)
    requires forall k :: 0 <= k < |words| ==> words[k] != ""
    ensures Dashed(words) == "" <==> words == []
  {
  }

  predicate Unreserved(s: string) {
    forall k :: 0 <= k < |s| ==> !IsReserved(s[k])
  }

  lemma {:induction false} WordsAreUnreserved(alnum: Alphanumeric, text: string)
    ensures forall k :: 0 <= k < |Words(alnum, text)| ==> Unreserved(Words(alnum, text)[k])
    decreases |text|
  {
    if text != "" {
      WordsAreUnreserved(alnum, text[..|text| - 1]);
    }
  }

  lemma DashedEndsInWord(words: seq<string>)
    requires forall k :: 0 <= k < |words| ==> words[k] != "" && Unreserved(words[k])
    ensures words != [] ==> Dashed(words) != "" && Dashed(words)[|Dashed(words)| - 1] != '-'
  {
    if words != [] {
      var w := words[|words| - 1];
      assert !IsReserved(w[|w| - 1]);
    }
  }

  lemma StripOneDash(s: string)
    requires s == "" || s[|s| - 1] != '-'
    ensures StripDashes(s) == s && StripDashes(s + "-") == s
  {
    assert (s + "-")[..|s|] == s;
  }

  // ----- what slugs look like -----

  /** Words parted by single dashes: no dash at either end, none next to another, nothing else reserved. */
  predicate IsSlug(s: string) {
    && s != ""
    && (forall k :: 0 <= k < |s| ==> s[k] == '-' || !IsReserved(s[k]))
    && s[0] != '-' && s[|s| - 1] != '-'
    && (forall k :: 0 <= k < |s| - 1 ==> s[k] != '-' || s[k + 1] != '-')
  }

  lemma {:induction false} DashedIsSlug(words: seq<string>)
    requires words != [] && forall k :: 0 <= k < |words| ==> words[k] != "" && Unreserved(words[k])
    ensures IsSlug(Dashed(words))
    decreases |words|
  {
    var w := words[|words| - 1];
    assert !IsReserved(w[0]) && !IsReserved(w[|w| - 1]);
    if 1 < |words| {
      DashedIsSlug(words[..|words| - 1]);
    }
  }

  lemma CutSlugIsSlug(s: string, n: nat)
    requires IsSlug(s) && 1 <= n <= |s|
    ensures IsSlug(StripDashes(s[..n]))
  {
    var cut := s[..n];
    if cut[n - 1] == '-' {
      assert cut[..n - 1] == s[..n - 1];
      assert s[n - 2] != '-';
    }
  }

  /** Every slug is non-empty, well formed and within its length. */
  lemma SlugIsSlug(alnum: Alphanumeric, text: string)
    ensures IsSlug(Slug(alnum, text)) && |Slug(alnum, text)| <= 48
  {
    var words := Words(alnum, text);
    WordsAreUnreserved(alnum, text);
    var slug := if words == [] then "section" else Dashed(words);
    if words != [] {
      DashedIsSlug(words);
    }
    if SLUG_SEGMENT_MAX_CHARS < |slug| {
      CutSlugIsSlug(slug, SLUG_SEGMENT_MAX_CHARS);
    }
  }

  // ----- what slugs say -----

  const CAPITALS: string := "ABCDEFGHIJKLMNOPQRSTUVWXYZ"
  const SMALL: string := "abcdefghijklmnopqrstuvwxyz"

  lemma LettersInOrder(k: nat)
    requires k < 26
    ensures |CAPITALS| == 26 && CAPITALS[k] as int == 'A' as int + k
    ensures |SMALL| == 26 && SMALL[k] as int == 'a' as int + k
  {
  }

  /** Capital letters of ASCII become small ones; nothing else changes. */
  lemma LowerMeaning(c: char)
    ensures |CAPITALS| == |SMALL|
    ensures c !in CAPITALS ==> AsciiLower(c) == c
    ensures forall k :: 0 <= k < |CAPITALS| && c == CAPITALS[k] ==> AsciiLower(c) == SMALL[k]
  {
    hide CAPITALS, SMALL;
    LettersInOrder(0);
    if 'A' <= c <= 'Z' {
      LettersInOrder(c as int - 'A' as int);
      assert c in CAPITALS;
    }
    forall k: nat | k < 26 && c == CAPITALS[k]
      ensures AsciiLower(c) == SMALL[k]
    {
      LettersInOrder(k);
    }
  }

  /** `text[run.0..run.1]` is a maximal run of alphanumeric characters. */
  predicate IsRun(alnum: Alphanumeric, text: string, run: (nat, nat)) {
    && run.0 < run.1 <= |text|
    && (forall k :: run.0 <= k < run.1 ==> alnum(text[k]))
    && (run.0 == 0 || !alnum(text[run.0 - 1]))
    && (run.1 == |text| || !alnum(text[run.1]))
  }

  /** The word is what the run reads in lower case. */
  predicate Reads(text: string, run: (nat, nat), word: string) {
    && run.0 <= run.1 <= |text| && |word| == run.1 - run.0
    && forall k :: 0 <= k < |word| ==> word[k] == AsciiLower(text[run.0 + k])
  }

  predicate AreRuns(alnum: Alphanumeric, text: string, runs: seq<(nat, nat)>, words: seq<string>) {
    && |runs| == |words|
    && (forall k :: 0 <= k < |runs| ==> IsRun(alnum, text, runs[k]) && Reads(text, runs[k], words[k]))
    && (forall k :: 0 <= k < |runs| - 1 ==> runs[k].1 < runs[k + 1].0)
    && (forall j: nat :: j < |text| && alnum(text[j]) ==> IsCovered(runs, j))
  }

  predicate IsCovered(runs: seq<(nat, nat)>, j: nat) {
    exists k :: 0 <= k < |runs| && runs[k].0 <= j < runs[k].1
  }

  /** Only the last run can reach the end. */
  lemma RunsApart(alnum: Alphanumeric, text: string, runs: seq<(nat, nat)>, words: seq<string>, k: nat)
    requires AreRuns(alnum, text, runs, words) && k < |runs|
    ensures k < |runs| - 1 ==> runs[k].1 < |text|
  {
    if k < |runs| - 1 {
      assert IsRun(alnum, text, runs[k + 1]);
    }
  }

  lemma RunAtEnd(alnum: Alphanumeric, text: string, runs: seq<(nat, nat)>, words: seq<string>)
    requires AreRuns(alnum, text, runs, words)
    ensures text != "" && alnum(text[|text| - 1]) <==> runs != [] && runs[|runs| - 1].1 == |text|
  {
    if text != "" && alnum(text[|text| - 1]) {
      assert IsCovered(runs, |text| - 1);
      var k: nat :| k < |runs| && runs[k].0 <= |text| - 1 < runs[k].1;
      RunsApart(alnum, text, runs, words, k);
      assert IsRun(alnum, text, runs[k]);
    }
    if runs != [] {
      assert IsRun(alnum, text, runs[|runs| - 1]);
    }
  }

  /** A run stays one if it does not touch the end or the end goes on with another character. */
  lemma RunStays(alnum: Alphanumeric, text: string, c: char, run: (nat, nat), word: string)
    requires IsRun(alnum, text, run) && Reads(text, run, word) && (run.1 < |text| || !alnum(c))
    ensures IsRun(alnum, text + [c], run) && Reads(text + [c], run, word)
  {
    hide AsciiLower;
  }

  lemma RunGrows(alnum: Alphanumeric, text: string, c: char, run: (nat, nat), word: string)
    requires IsRun(alnum, text, run) && Reads(text, run, word) && run.1 == |text| && alnum(c)
    ensures IsRun(alnum, text + [c], (run.0, |text| + 1))
    ensures Reads(text + [c], (run.0, |text| + 1), word + [AsciiLower(c)])
  {
    hide AsciiLower;
  }

  lemma RunBegins(alnum: Alphanumeric, text: string, c: char)
    requires alnum(c) && (text == "" || !alnum(text[|text| - 1]))
    ensures IsRun(alnum, text + [c], (|text|, |text| + 1))
    ensures Reads(text + [c], (|text|, |text| + 1), [AsciiLower(c)])
  {
    hide AsciiLower;
  }

  lemma RunsSkip(alnum: Alphanumeric, text: string, c: char, runs: seq<(nat, nat)>, words: seq<string>)
    requires AreRuns(alnum, text, runs, words) && !alnum(c)
    ensures AreRuns(alnum, text + [c], runs, words)
  {
    hide AsciiLower, IsRun, Reads, IsCovered;
    forall k: nat | k < |runs|
      ensures IsRun(alnum, text + [c], runs[k]) && Reads(text + [c], runs[k], words[k])
    {
      RunStays(alnum, text, c, runs[k], words[k]);
    }
  }

  lemma RunsBegin(alnum: Alphanumeric, text: string, c: char, runs: seq<(nat, nat)>, words: seq<string>)
    requires AreRuns(alnum, text, runs, words) && alnum(c) && (text == "" || !alnum(text[|text| - 1]))
    ensures AreRuns(alnum, text + [c], runs + [(|text|, |text| + 1)], words + [[AsciiLower(c)]])
  {
    hide AsciiLower, IsRun, Reads, IsCovered;
    var run := (|text|, |text| + 1);
    RunAtEnd(alnum, text, runs, words);
    RunBegins(alnum, text, c);
    forall k: nat | k < |runs|
      ensures runs[k].1 < |text|
      ensures IsRun(alnum, text + [c], runs[k]) && Reads(text + [c], runs[k], words[k])
    {
      RunsEnd(alnum, text, runs, words, k);
      RunsApart(alnum, text, runs, words, k);
      RunStays(alnum, text, c, runs[k], words[k]);
    }
    forall j: nat | j < |text| + 1 && alnum((text + [c])[j])
      ensures IsCovered(runs + [run], j)
    {
      if j < |text| {
        assert IsCovered(runs, j);
      }
      CoveredOn(runs, run, j);
    }
  }

  lemma RunsEnd(alnum: Alphanumeric, text: string, runs: seq<(nat, nat)>, words: seq<string>, k: nat)
    requires AreRuns(alnum, text, runs, words) && k < |runs|
    ensures runs[k].0 < runs[k].1 <= |text|
  {
    assert IsRun(alnum, text, runs[k]);
  }

  lemma CoveredOn(runs: seq<(nat, nat)>, run: (nat, nat), j: nat)
    ensures IsCovered(runs + [run], j) <==> IsCovered(runs, j) || run.0 <= j < run.1
  {
    var more := runs + [run];
    if IsCovered(runs, j) {
      var k :| 0 <= k < |runs| && runs[k].0 <= j < runs[k].1;
      assert more[k] == runs[k];
    }
    if run.0 <= j < run.1 {
      assert more[|runs|] == run;
    }
  }

  lemma RunsGrow(alnum: Alphanumeric, text: string, c: char, runs: seq<(nat, nat)>, words: seq<string>)
    requires AreRuns(alnum, text, runs, words) && alnum(c) && text != "" && alnum(text[|text| - 1])
    ensures |words| == |runs| > 0
    ensures var last := |runs| - 1;
            AreRuns(alnum, text + [c], runs[..last] + [(runs[last].0, |text| + 1)],
                    words[..last] + [words[last] + [AsciiLower(c)]])
  {
    hide AsciiLower, IsRun, Reads, IsCovered;
    RunAtEnd(alnum, text, runs, words);
    var last := |runs| - 1;
    var run := (runs[last].0, |text| + 1);
    assert runs == runs[..last] + [runs[last]];
    RunGrows(alnum, text, c, runs[last], words[last]);
    forall k: nat | k < last
      ensures IsRun(alnum, text + [c], runs[k]) && Reads(text + [c], runs[k], words[k])
    {
      RunsApart(alnum, text, runs, words, k);
      RunStays(alnum, text, c, runs[k], words[k]);
    }
    RunsEnd(alnum, text, runs, words, last);
    forall j: nat | j < |text| + 1 && alnum((text + [c])[j])
      ensures IsCovered(runs[..last] + [run], j)
    {
      if j < |text| {
        assert IsCovered(runs, j);
      }
      CoveredOn(runs[..last], runs[last], j);
      CoveredOn(runs[..last], run, j);
    }
  }

  /** The words of a text are exactly its maximal alphanumeric runs, in order and in lower case. */
  lemma {:induction false} WordsAreRuns(alnum: Alphanumeric, text: string) returns (runs: seq<(nat, nat)>)
    ensures AreRuns(alnum, text, runs, Words(alnum, text))
    decreases |text|
  {
    hide AreRuns, AsciiLower;
    if text == "" {
      runs := [];
      NoRuns(alnum);
    } else {
      var before, c := text[..|text| - 1], text[|text| - 1];
      runs := WordsAreRuns(alnum, before);
      var words := Words(alnum, before);
      assert text == before + [c];
      if !alnum(c) {
        RunsSkip(alnum, before, c, runs, words);
      } else if before != "" && alnum(before[|before| - 1]) {
        RunsGrow(alnum, before, c, runs, words);
        assert Words(alnum, text) == words[..|runs| - 1] + [words[|runs| - 1] + [AsciiLower(c)]];
        runs := runs[..|runs| - 1] + [(runs[|runs| - 1].0, |before| + 1)];
      } else {
        RunsBegin(alnum, before, c, runs, words);
        runs := runs + [(|before|, |before| + 1)];
      }
    }
  }

  lemma NoRuns(alnum: Alphanumeric)
    ensures AreRuns(alnum, "", [], [])
  {
  }

  /**
   * The slug is the words joined by dashes, or `section`, when that has at most
   * 48 characters; else its first 48, or 47 if the last of them is a dash.
   */
  lemma SlugIsCut(alnum: Alphanumeric, text: string)
    ensures var words := Words(alnum, text);
            var whole := if words == [] then "section" else Join(words, "-");
            && Slug(alnum, text) <= whole
            && |Slug(alnum, text)| == if |whole| <= 48 then |whole| else if whole[47] == '-' then 47 else 48
  {
    hide Words;
    var words := Words(alnum, text);
    DashedIsJoined(words);
    WordsAreUnreserved(alnum, text);
    if words != [] {
      DashedIsSlug(words);
      var whole := Dashed(words);
      if 48 < |whole| {
        CutEnds(whole[..48]);
        assert whole[47] == '-' ==> whole[46] != '-';
        assert whole[..48][..47] == whole[..47];
      }
    }
  }

  /** At most one dash is stripped where no two stand together. */
  lemma CutEnds(s: string)
    requires 1 < |s| && (s[|s| - 1] == '-' ==> s[|s| - 2] != '-')
    ensures StripDashes(s) == if s[|s| - 1] == '-' then s[..|s| - 1] else s
  {
    if s[|s| - 1] == '-' {
      var cut := s[..|s| - 1];
      assert cut[|cut| - 1] == s[|s| - 2];
      assert StripDashes(cut) == cut;
    }
  }

  lemma {:induction false} DashedIsJoined(words: seq<string>)
    ensures Dashed(words) == Join(words, "-")
    decreases |words|
  {
    if words != [] {
      var before, last := words[..|words| - 1], words[|words| - 1];
      DashedIsJoined(before);
      assert words == before + [last];
      JoinSnoc(before, last, "-");
    }
  }

  // ----- trails -----

  function Slugs(alnum: Alphanumeric, trail: seq<string>): seq<string> {
    seq(|trail|, k requires 0 <= k < |trail| => Slug(alnum, trail[k]))
  }

  function SlugTrail(alnum: Alphanumeric, trail: seq<string>): string {
    var joined := Join(Slugs(alnum, trail), "/");
    if |joined| <= SLUG_TRAIL_MAX_CHARS then joined else joined[..SLUG_TRAIL_MAX_CHARS]
  }

  method SlugifyTrail(alnum: Alphanumeric, trail: seq<string>) returns (slug: string)
    ensures slug == SlugTrail(alnum, trail)
  {
    var segments: seq<string> := [];
    var i := 0;
    while i < |trail|
      invariant 0 <= i <= |trail|
      invariant segments == Slugs(alnum, trail[..i])
    {
      var segment := SlugifySegment(alnum, trail[i]);
      assert Slugs(alnum, trail[..i + 1]) == Slugs(alnum, trail[..i]) + [segment];
      segments := segments + [segment];
      i := i + 1;
    }
    assert trail[..i] == trail;
    slug := Join(segments, "/");
    if |slug| > SLUG_TRAIL_MAX_CHARS {
      slug := slug[..SLUG_TRAIL_MAX_CHARS];
    }
  }

  /** Free of the characters that mark occurrence and piece numbers. */
  predicate Unmarked(s: string) {
    '~' !in s && '#' !in s
  }

  lemma {:induction false} JoinedSlugsAreUnmarked(parts: seq<string>)
    requires forall k :: 0 <= k < |parts| ==> IsSlug(parts[k])
    ensures Unmarked(Join(parts, "/")) && '_' !in Join(parts, "/")
    decreases |parts|
  {
    if parts != [] {
      assert '~' !in parts[0] && '#' !in parts[0] && '_' !in parts[0];
      if 1 < |parts| {
        JoinedSlugsAreUnmarked(parts[1..]);
      }
    }
  }

  /** Whatever a heading says, even `~2` or `#2`, its slug has none of the reserved marks; nor is it the preamble's. */
  lemma TrailIsUnmarked(alnum: Alphanumeric, trail: seq<string>)
    ensures Unmarked(SlugTrail(alnum, trail)) && '_' !in SlugTrail(alnum, trail)
    ensures SlugTrail(alnum, trail) != PREAMBLE_ANCHOR
    ensures |SlugTrail(alnum, trail)| <= 160
  {
    var parts := Slugs(alnum, trail);
    forall k | 0 <= k < |parts|
      ensures IsSlug(parts[k])
    {
      SlugIsSlug(alnum, trail[k]);
    }
    JoinedSlugsAreUnmarked(parts);
    assert PREAMBLE_ANCHOR[0] == '_';
  }

  /** The first 160 characters of the slugs joined by slashes. */
  lemma TrailIsCut(alnum: Alphanumeric, trail: seq<string>) returns (slugs: seq<string>)
    ensures |slugs| == |trail| && forall k :: 0 <= k < |trail| ==> slugs[k] == Slug(alnum, trail[k])
    ensures SlugTrail(alnum, trail) <= Join(slugs, "/")
    ensures |SlugTrail(alnum, trail)| == if |Join(slugs, "/")| <= 160 then |Join(slugs, "/")| else 160
  {
    hide Slug, Join;
    slugs := Slugs(alnum, trail);
  }

  // ----- suffixes -----

  function CountSuffix(count: nat): string {
    if count == 1 then "" else "~" + Decimal(count)
  }

  function PieceSuffix(index: nat): string {
    if index == 0 then "" else "#" + Decimal(index + 1)
  }

  function SectionAnchor(base: string, count: nat): string {
    base + CountSuffix(count)
  }

  function PieceAnchor(anchor: string, index: nat): string {
    anchor + PieceSuffix(index)
  }

  lemma DecimalIsUnmarked(n: nat)
    ensures Unmarked(Decimal(n))
  {
    var d := Decimal(n);
    assert forall k :: 0 <= k < |d| ==> IsDigit(d[k]);
  }

  lemma DecimalInjective(m: nat, n: nat)
    requires Decimal(m) == Decimal(n)
    ensures m == n
  {
    DecimalRoundTrip(m);
    DecimalRoundTrip(n);
  }

  lemma SuffixesDecode(m: nat, n: nat)
    ensures CountSuffix(m) == CountSuffix(n) ==> m == n
    ensures PieceSuffix(m) == PieceSuffix(n) ==> m == n
  {
    hide Decimal;
    if m != 1 && n != 1 && CountSuffix(m) == CountSuffix(n) {
      assert CountSuffix(m)[1..] == Decimal(m) && CountSuffix(n)[1..] == Decimal(n);
      DecimalInjective(m, n);
    }
    if m != 0 && n != 0 && PieceSuffix(m) == PieceSuffix(n) {
      assert PieceSuffix(m)[1..] == Decimal(m + 1) && PieceSuffix(n)[1..] == Decimal(n + 1);
      DecimalInjective(m + 1, n + 1);
    }
  }

  /** An anchor tells its base slug, its occurrence number and its piece number apart. */
  lemma AnchorDecodes(b: string, m: nat, i: nat, c: string, n: nat, j: nat)
    requires Unmarked(b) && Unmarked(c)
    requires PieceAnchor(SectionAnchor(b, m), i) == PieceAnchor(SectionAnchor(c, n), j)
    ensures b == c && m == n && i == j
  {
    hide Decimal;
    DecimalIsUnmarked(m);
    DecimalIsUnmarked(n);
    CutAtMark('#', SectionAnchor(b, m), PieceSuffix(i), SectionAnchor(c, n), PieceSuffix(j));
    CutAtMark('~', b, CountSuffix(m), c, CountSuffix(n));
    SuffixesDecode(m, n);
    SuffixesDecode(i, j);
  }

  // ----- counting occurrences -----

  function Occurrences(bases: seq<string>, base: string): nat {
    if bases == [] then 0
    else Occurrences(bases[..|bases| - 1], base) + (if bases[|bases| - 1] == base then 1 else 0)
  }

  /** Which occurrence of its base section i is, counting from one. */
  function Ordinal(bases: seq<string>, i: nat): (n: nat)
    requires i < |bases|
    ensures 1 <= n
  {
    assert bases[..i + 1][..i] == bases[..i];
    Occurrences(bases[..i], bases[i]) + 1
  }

  lemma {:induction false} OccurrencesGrow(bases: seq<string>, base: string, i: nat, j: nat)
    requires i <= j <= |bases|
    ensures Occurrences(bases[..i], base) <= Occurrences(bases[..j], base)
    ensures i < j && bases[i] == base ==> Occurrences(bases[..i], base) < Occurrences(bases[..j], base)
    decreases j
  {
    if i < j {
      assert bases[..j][..j - 1] == bases[..j - 1];
      OccurrencesGrow(bases, base, i, j - 1);
    }
  }

  /** The ordinal counts the sections up to this one that have its base. */
  lemma OrdinalCounts(bases: seq<string>, i: nat)
    requires i < |bases|
    ensures Ordinal(bases, i) == |set j | 0 <= j <= i && bases[j] == bases[i]|
  {
    hide Occurrences;
    OccurrencesCounted(bases, bases[i], i);
    assert (set j | 0 <= j <= i && bases[j] == bases[i]) == Positions(bases, bases[i], i) + {i};
  }

  ghost function Positions(bases: seq<string>, base: string, n: nat): set<int>
    requires n <= |bases|
  {
    set j | 0 <= j < n && bases[j] == base
  }

  lemma {:induction false} OccurrencesCounted(bases: seq<string>, base: string, n: nat)
    requires n <= |bases|
    ensures Occurrences(bases[..n], base) == |Positions(bases, base, n)|
  {
    hide Positions;
    PositionsStep(bases, base, n);
    if 0 < n {
      OccurrencesCounted(bases, base, n - 1);
      assert bases[..n][..n - 1] == bases[..n - 1];
    }
  }

  lemma PositionsStep(bases: seq<string>, base: string, n: nat)
    requires n <= |bases|
    ensures n == 0 ==> Positions(bases, base, n) == {}
    ensures 0 < n ==>
              && n - 1 !in Positions(bases, base, n - 1)
              && Positions(bases, base, n) ==
                   Positions(bases, base, n - 1) + (if bases[n - 1] == base then {n - 1} else {})
  {
  }

  /** Sections with the same base get different ordinals. */
  lemma OrdinalsDiffer(bases: seq<string>, i: nat, j: nat)
    requires i < j < |bases| && bases[i] == bases[j]
    ensures Ordinal(bases, i) < Ordinal(bases, j)
  {
    OccurrencesGrow(bases, bases[i], i, j);
  }

  /** Appending sections changes no ordinal already given, and so no anchor. */
  lemma OrdinalsStay(bases: seq<string>, more: seq<string>, i: nat)
    requires i < |bases|
    ensures Ordinal(bases + more, i) == Ordinal(bases, i)
  {
    assert (bases + more)[..i] == bases[..i];
  }
}
