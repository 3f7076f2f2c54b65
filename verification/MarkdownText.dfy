// From the text of a file to its lines.
module MarkdownText {
  import opened Basics
  import opened Text

  const BYTE_ORDER_MARK: char := '\U{FEFF}'

  function StripBom(text: string): string {
    if text != "" && text[0] == BYTE_ORDER_MARK then text[1..] else text
  }

  /** A line without the carriage return that stood before its line feed. */
  function WithoutReturn(line: string): string {
    if line != "" && line[|line| - 1] == '\r' then line[..|line| - 1] else line
  }

  /** `str::lines`: the end of the last line is optional. */
  function LinesOf(text: string): seq<string> {
    if text == "" then []
    else
      var k := FirstMark(text, '\n');
      if k == |text| then [text] else [WithoutReturn(text[..k])] + LinesOf(text[k + 1..])
  }

  predicate EndsLine(text: string) {
    text == "" || text[|text| - 1] == '\n'
  }

  /** Text appended where a line has ended only appends lines. */
  lemma {:induction false} LinesJoin(text: string, more: string)
    requires EndsLine(text)
    ensures LinesOf(text + more) == LinesOf(text) + LinesOf(more)
    decreases |text|
  {
    hide LinesOf, FirstMark, WithoutReturn;
    if text == "" {
      NoLines();
      assert text + more == more;
      assert [] + LinesOf(more) == LinesOf(more);
    } else {
      var k := FirstMark(text, '\n');
      assert text[|text| - 1] in text;
      MarkInPrefix(text, more, '\n');
      FirstLine(text);
      FirstLine(text + more);
      assert (text + more)[..k] == text[..k] && (text + more)[k + 1..] == text[k + 1..] + more;
      assert text[k + 1..] != "" ==> text[k + 1..][|text| - k - 2] == text[|text| - 1];
      LinesJoin(text[k + 1..], more);
      assert [WithoutReturn(text[..k])] + (LinesOf(text[k + 1..]) + LinesOf(more))
          == [WithoutReturn(text[..k])] + LinesOf(text[k + 1..]) + LinesOf(more);
    }
  }

  /** The first line of a text, and the rest. */
  lemma FirstLine(text: string)
    requires FirstMark(text, '\n') < |text|
    ensures var k := FirstMark(text, '\n');
            LinesOf(text) == [WithoutReturn(text[..k])] + LinesOf(text[k + 1..])
  {
    hide FirstMark, WithoutReturn;
  }

  lemma NoLines()
    ensures LinesOf("") == []
  {
  }

  /** So appending to a non-empty file that ends with a line feed appends lines, byte-order mark or not. */
  lemma AppendedLines(text: string, more: string)
    requires text != "" && EndsLine(text)
    ensures LinesOf(StripBom(text + more)) == LinesOf(StripBom(text)) + LinesOf(more)
  {
    hide LinesOf;
    assert StripBom(text + more) == StripBom(text) + more;
    LinesJoin(StripBom(text), more);
  }

  lemma {:induction false} MarkInPrefix(s: string, t: string, c: char)
    requires c in s
    ensures FirstMark(s + t, c) == FirstMark(s, c) < |s|
  {
    if s[0] != c {
      assert (s + t)[1..] == s[1..] + t;
      MarkInPrefix(s[1..], t, c);
    }
  }

  predicate IsLineText(line: string) {
    '\n' !in line && (line == "" || line[|line| - 1] != '\r')
  }

  /** The lines written out, each with the given ending. */
  function Written(lines: seq<string>, ending: string): string {
    if lines == [] then "" else lines[0] + ending + Written(lines[1..], ending)
  }

  lemma OneLine(body: string)
    requires '\n' !in body
    ensures LinesOf(body + "\n") == [WithoutReturn(body)] && EndsLine(body + "\n")
  {
    hide LinesOf, FirstMark, WithoutReturn;
    var all := body + "\n";
    MarkIsAtJoin('\n', body, "\n");
    assert all[..|body|] == body && all[|body| + 1..] == "";
    FirstLine(all);
    NoLines();
    assert [WithoutReturn(body)] + [] == [WithoutReturn(body)];
  }

  lemma LineReadsBack(line: string, ending: string)
    requires IsLineText(line) && (ending == "\n" || ending == "\r\n")
    ensures LinesOf(line + ending) == [line] && EndsLine(line + ending)
  {
    hide LinesOf, EndsLine;
    var body := if ending == "\n" then line else line + "\r";
    OneLine(body);
    assert line + ending == body + "\n";
    assert ending == "\r\n" ==> body[..|body| - 1] == line;
  }

  /** Lines written out with either ending are read back. */
  lemma {:induction false} WrittenLinesReadBack(lines: seq<string>, ending: string)
    requires forall k :: 0 <= k < |lines| ==> IsLineText(lines[k])
    requires ending == "\n" || ending == "\r\n"
    ensures LinesOf(Written(lines, ending)) == lines
  {
    hide LinesOf, IsLineText;
    if lines == [] {
      NoLines();
    } else {
      WrittenLinesReadBack(lines[1..], ending);
      LineReadsBack(lines[0], ending);
      LinesJoin(lines[0] + ending, Written(lines[1..], ending));
    }
  }
}
