// The line that the text of every chunk begins with: the document's title, the
// trail of headings and the path.
module MarkdownTitle {
  import opened Basics
  import opened Text
  import opened MarkdownScan

  // The file's path, and its name without extension (`untitled` if it has none).
  datatype File = File(path: string, stem: string)

  /** Text of the first heading of level 1 among the first n. */
  function TopHeading(hs: seq<RawHeading>, n: nat): Option<string>
    requires n <= |hs|
  {
    if n == 0 then None
    else if TopHeading(hs, n - 1).Some? then TopHeading(hs, n - 1)
    else if hs[n - 1].level == 1 then Some(hs[n - 1].text)
    else None
  }

  function FoundTitle(doc: ScanResult): Option<string> {
    if doc.frontMatterTitle.Some? then doc.frontMatterTitle else TopHeading(doc.headings, |doc.headings|)
  }

  function TitleOf(doc: ScanResult, file: File): string {
    if FoundTitle(doc).Some? then FoundTitle(doc).value else file.stem
  }

  lemma {:induction false} TopHeadingIsFirst(hs: seq<RawHeading>, n: nat, text: string)
    requires n <= |hs|
    ensures TopHeading(hs, n) == Some(text) <==>
              exists j: nat :: j < n && hs[j].level == 1 && hs[j].text == text &&
                               forall m :: 0 <= m < j ==> hs[m].level != 1
    ensures TopHeading(hs, n) == None <==> forall m :: 0 <= m < n ==> hs[m].level != 1
  {
    if 0 < n {
      TopHeadingIsFirst(hs, n - 1, text);
    }
  }

  /** The title is that of the front matter, else the first heading of level 1, else the stem of the file's name. */
  lemma TitleMeaning(doc: ScanResult, file: File)
    ensures doc.frontMatterTitle.Some? ==> TitleOf(doc, file) == doc.frontMatterTitle.value
    ensures var hs := doc.headings;
            doc.frontMatterTitle == None ==>
              && (forall j: nat :: j < |hs| && hs[j].level == 1 && (forall m :: 0 <= m < j ==> hs[m].level != 1) ==>
                    TitleOf(doc, file) == hs[j].text)
              && ((forall j: nat :: j < |hs| ==> hs[j].level != 1) ==> TitleOf(doc, file) == file.stem)
  {
    hide TopHeading;
    var hs := doc.headings;
    TopHeadingIsFirst(hs, |hs|, "");
    forall j: nat | j < |hs| && hs[j].level == 1 && (forall m :: 0 <= m < j ==> hs[m].level != 1)
      ensures TopHeading(hs, |hs|) == Some(hs[j].text)
    {
      TopHeadingIsFirst(hs, |hs|, hs[j].text);
    }
  }

  function Header(title: string, path: string, trail: seq<string>): string {
    "doc: " + title + (if trail == [] then "" else " > " + Join(trail, " > ")) + " | path: " + path
  }

  function EmbedText(header: string, body: string): string {
    if body == "" then header else header + "\n" + body
  }

  lemma EqualSuffix(a: string, b: string, suffix: string)
    requires a + suffix == b + suffix
    ensures a == b
  {
    assert |a| == |b|;
    assert (a + suffix)[..|a|] == a && (b + suffix)[..|b|] == b;
  }

  /** The same body under the same trail and path has the same text exactly under the same title. */
  lemma TextsDiffer(a: string, b: string, path: string, trail: seq<string>, body: string)
    ensures EmbedText(Header(a, path, trail), body) == EmbedText(Header(b, path, trail), body) <==> a == b
  {
    hide Join;
    var rest := (if trail == [] then "" else " > " + Join(trail, " > ")) + " | path: " + path;
    HeaderForm(a, path, trail, rest);
    HeaderForm(b, path, trail, rest);
    if EmbedText(Header(a, path, trail), body) == EmbedText(Header(b, path, trail), body) {
      var suffix := if body == "" then rest else rest + "\n" + body;
      assert EmbedText(Header(a, path, trail), body) == "doc: " + a + suffix;
      assert EmbedText(Header(b, path, trail), body) == "doc: " + b + suffix;
      EqualSuffix("doc: " + a, "doc: " + b, suffix);
      assert ("doc: " + a)[5..] == a && ("doc: " + b)[5..] == b;
    }
  }

  lemma HeaderForm(title: string, path: string, trail: seq<string>, rest: string)
    requires rest == (if trail == [] then "" else " > " + Join(trail, " > ")) + " | path: " + path
    ensures Header(title, path, trail) == "doc: " + title + rest
  {
    hide Join;
  }

  lemma TopHeadingSnoc(hs: seq<RawHeading>, h: RawHeading)
    ensures TopHeading(hs + [h], |hs| + 1) ==
              if TopHeading(hs, |hs|).Some? then TopHeading(hs, |hs|) else if h.level == 1 then Some(h.text) else None
  {
    TopHeadingPrefix(hs, [h], |hs|);
  }

  lemma {:induction false} TopHeadingPrefix(hs: seq<RawHeading>, extra: seq<RawHeading>, n: nat)
    requires n <= |hs|
    ensures TopHeading(hs + extra, n) == TopHeading(hs, n)
  {
    if 0 < n {
      TopHeadingPrefix(hs, extra, n - 1);
    }
  }

  // ----- titles by lines -----

  /** Text of the first heading of level 1 that `lines[from..i]` completes. */
  function TopBefore(lines: seq<string>, from: nat, i: nat): Option<string>
    requires from <= i <= |lines|
  {
    TopHeading(Headings(lines, from, i), |Headings(lines, from, i)|)
  }

  /** `lines[j]` completes a heading of level 1. */
  predicate CompletesTop(lines: seq<string>, from: nat, j: nat)
    requires from <= j < |lines|
  {
    HeadingAt(lines, from, j).Some? && HeadingAt(lines, from, j).value.level == 1
  }

  /** `lines[j]` is the first from m on that completes a heading of level 1, and that has the given text. */
  predicate IsFirstTop(lines: seq<string>, from: nat, m: nat, j: nat, text: string)
    requires from <= m <= j < |lines|
  {
    && CompletesTop(lines, from, j)
    && HeadingAt(lines, from, j).value.text == text
    && forall k :: m <= k < j ==> !CompletesTop(lines, from, k)
  }

  lemma TopStep(lines: seq<string>, from: nat, i: nat)
    requires from <= i < |lines|
    ensures TopBefore(lines, from, i + 1) ==
              if TopBefore(lines, from, i).Some? then TopBefore(lines, from, i)
              else if CompletesTop(lines, from, i) then Some(HeadingAt(lines, from, i).value.text)
              else None
  {
    hide HeadingAt, TopHeading;
    if HeadingAt(lines, from, i).Some? {
      TopHeadingSnoc(Headings(lines, from, i), HeadingAt(lines, from, i).value);
    }
  }

  /** A title once found stays; else the first line that completes a heading of level 1 gives it. */
  lemma {:induction false} TopFrom(lines: seq<string>, from: nat, m: nat, i: nat, text: string)
    requires from <= m <= i <= |lines|
    ensures TopBefore(lines, from, m).Some? ==> TopBefore(lines, from, i) == TopBefore(lines, from, m)
    ensures TopBefore(lines, from, m) == None ==>
              && (TopBefore(lines, from, i) == None <==> forall k :: m <= k < i ==> !CompletesTop(lines, from, k))
              && (TopBefore(lines, from, i) == Some(text) <==>
                    exists j :: m <= j < i && IsFirstTop(lines, from, m, j, text))
    decreases i
  {
    hide TopBefore, HeadingAt;
    if m < i {
      TopFrom(lines, from, m, i - 1, text);
      TopStep(lines, from, i - 1);
      if TopBefore(lines, from, m) == None && TopBefore(lines, from, i - 1) == None {
        hide CompletesTop;
        if TopBefore(lines, from, i) == Some(text) {
          assert IsFirstTop(lines, from, m, i - 1, text);
        }
      }
    }
  }
}
