// Sample lines for the documents that show what can go wrong.
module MarkdownSamples {
  import opened Basics
  import opened Text
  import opened MarkdownFences
  import opened MarkdownScan

  const TICKS: string := "```"

  function Letters(n: nat): (s: string)
    ensures |s| == n && AllEqual(s, 'x')
  {
    seq(n, _ => 'x')
  }

  lemma LettersArePlain(n: nat)
    requires 1 <= n
    ensures Trim(Letters(n)) == Letters(n) && FenceOpen(Letters(n)) == None && AtxHeading(Letters(n)) == None
    ensures SetextUnderline(Letters(n)) == None
    ensures forall f: Fence :: f.mark == '`' ==> !IsFenceClose(Letters(n), f)
  {
    assert !IsWhitespace('x') && Letters(n)[0] == 'x' && Letters(n)[n - 1] == 'x';
  }

  lemma TicksAreFence()
    ensures Trim(TICKS) == TICKS && FenceOpen(TICKS) == Some(Fence('`', 3)) && IsFenceClose(TICKS, Fence('`', 3))
  {
    assert !IsWhitespace('`');
    assert TICKS[1..] == "``" && "``"[1..] == "`" && "`"[1..] == "";
    assert RunLength("", '`') == 0 && RunLength("`", '`') == 1 && RunLength("``", '`') == 2;
    assert TICKS[3..] == "";
  }

  lemma DashesUnderline()
    ensures Trim("---") == "---" && SetextUnderline("---") == Some(2)
  {
    assert !IsWhitespace('-');
  }

  /** A heading line with a title that bears neither white space nor hashes at its ends. */
  lemma HeadingLine(level: nat, title: string)
    requires 1 <= level <= 6 && title != "" && Trim(title) == title && title[|title| - 1] != '#'
    ensures var line := Hashes(level) + " " + title;
            Trim(line) == line && FenceOpen(line) == None && AtxHeading(line) == Some((level, title))
  {
    var line := Hashes(level) + " " + title;
    assert !IsWhitespace('#') && line[0] == '#' && line[|line| - 1] == title[|title| - 1];
    AtxRoundTrip(level, title);
  }
}
