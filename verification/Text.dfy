// The string operations of the standard library that the chunker relies on:
// trimming, leading runs, joining and decimal rendering.
module Text {
  import opened Basics

  /** Unicode `White_Space`, the set behind `char::is_whitespace` and `str::trim`. */
  predicate IsWhitespace(c: char) {
    var u := c as int;
    || 0x09 <= u <= 0x0D
    || u in {0x20, 0x85, 0xA0, 0x1680, 0x2028, 0x2029, 0x202F, 0x205F, 0x3000}
    || 0x2000 <= u <= 0x200A
  }

  predicate AllWhitespace(s: string) {
    forall i :: 0 <= i < |s| ==> IsWhitespace(s[i])
  }

  predicate AllEqual(s: string, c: char) {
    forall i :: 0 <= i < |s| ==> s[i] == c
  }

  function TrimStart(s: string): (r: string)
    ensures r != "" ==> !IsWhitespace(r[0])
  {
    if s != "" && IsWhitespace(s[0]) then TrimStart(s[1..]) else s
  }

  function TrimEnd(s: string): (r: string)
    ensures r <= s
    ensures r != "" ==> !IsWhitespace(r[|r| - 1])
  {
    if s != "" && IsWhitespace(s[|s| - 1]) then TrimEnd(s[..|s| - 1]) else s
  }

  /** `str::trim` */
  function Trim(s: string): (r: string)
    ensures r != "" ==> !IsWhitespace(r[0]) && !IsWhitespace(r[|r| - 1])
  {
    TrimEnd(TrimStart(s))
  }

  /** Trimming cuts white space from both ends, all of it, and nothing else. */
  lemma {:induction false} TrimIsMiddle(s: string) returns (left: nat, right: nat)
    ensures left <= right <= |s| && Trim(s) == s[left..right]
    ensures AllWhitespace(s[..left]) && AllWhitespace(s[right..])
  {
    hide IsWhitespace, TrimEnd, AllWhitespace;
    AllWhitespaceMeaning("", ' ');
    if s != "" && IsWhitespace(s[0]) {
      left, right := TrimIsMiddle(s[1..]);
      assert s[..left + 1] == [s[0]] + s[1..][..left] && s[right + 1..] == s[1..][right..];
      AllWhitespaceMeaning(s[1..][..left], s[0]);
      assert s[1..][left..right] == s[left + 1..right + 1];
      left, right := left + 1, right + 1;
    } else {
      left, right := 0, |TrimEnd(s)|;
      TrimEndIsPrefix(s);
      assert TrimStart(s) == s && s[..0] == "";
    }
  }

  lemma AllWhitespaceMeaning(s: string, c: char)
    ensures AllWhitespace("")
    ensures AllWhitespace([c] + s) <==> IsWhitespace(c) && AllWhitespace(s)
  {
    hide IsWhitespace;
    if AllWhitespace([c] + s) {
      assert ([c] + s)[0] == c && forall k :: 0 <= k < |s| ==> s[k] == ([c] + s)[k + 1];
    }
  }

  lemma {:induction false} TrimEndIsPrefix(s: string)
    ensures AllWhitespace(s[|TrimEnd(s)|..])
  {
    hide IsWhitespace;
    if s != "" && IsWhitespace(s[|s| - 1]) {
      TrimEndIsPrefix(s[..|s| - 1]);
      assert s[|TrimEnd(s)|..] == s[..|s| - 1][|TrimEnd(s)|..] + [s[|s| - 1]];
    }
  }

  lemma {:induction false} TrimStartIs(space: string, s: string)
    requires AllWhitespace(space) && (s == "" || !IsWhitespace(s[0]))
    ensures TrimStart(space + s) == s
  {
    hide IsWhitespace;
    if space == "" {
      assert space + s == s;
    } else {
      assert (space + s)[1..] == space[1..] + s;
      TrimStartIs(space[1..], s);
    }
  }

  lemma {:induction false} TrimEndIs(s: string, space: string)
    requires AllWhitespace(space) && (s == "" || !IsWhitespace(s[|s| - 1]))
    ensures TrimEnd(s + space) == s
    decreases |space|
  {
    hide IsWhitespace;
    if space == "" {
      assert s + space == s;
    } else {
      assert (s + space)[..|s + space| - 1] == s + space[..|space| - 1];
      TrimEndIs(s, space[..|space| - 1]);
    }
  }

  /** A word in white space is what trimming leaves. */
  lemma TrimIs(left: string, s: string, right: string)
    requires AllWhitespace(left) && AllWhitespace(right)
    requires s == "" || (!IsWhitespace(s[0]) && !IsWhitespace(s[|s| - 1]))
    ensures Trim(left + s + right) == s
  {
    hide IsWhitespace, TrimStart, TrimEnd;
    if s == "" {
      TrimStartIs(left + right, "");
      assert left + s + right == left + right + "" && "" + "" == "";
      TrimEndIs("", "");
    } else {
      assert left + s + right == left + (s + right);
      TrimStartIs(left, s + right);
      TrimEndIs(s, right);
    }
  }

  lemma WhitespaceAround(s: string, left: nat, right: nat)
    requires left <= right <= |s| && AllWhitespace(s[..left]) && AllWhitespace(s[right..])
    ensures left == right ==> AllWhitespace(s)
  {
    hide IsWhitespace;
    assert left == right ==> s == s[..left] + s[right..];
  }

  /** Nothing is left of a string exactly when it is white space. */
  lemma TrimsToNothing(s: string)
    ensures Trim(s) == "" <==> AllWhitespace(s)
  {
    hide IsWhitespace, Trim;
    if AllWhitespace(s) {
      assert s == s + "" + "";
      TrimIs(s, "", "");
    } else {
      var left, right := TrimIsMiddle(s);
      WhitespaceAround(s, left, right);
    }
  }

  /** `str::trim_end_matches(c)` */
  function TrimEndChar(s: string, c: char): (r: string)
    ensures r <= s
    ensures r != "" ==> r[|r| - 1] != c
  {
    if s != "" && s[|s| - 1] == c then TrimEndChar(s[..|s| - 1], c) else s
  }

  function TrimStartChar(s: string, c: char): string {
    if s != "" && s[0] == c then TrimStartChar(s[1..], c) else s
  }

  /** `str::trim_matches(c)` */
  function TrimChar(s: string, c: char): string {
    TrimEndChar(TrimStartChar(s, c), c)
  }

  /** `str::strip_prefix` */
  function StripPrefix(s: string, prefix: string): Option<string> {
    if prefix <= s then Some(s[|prefix|..]) else None
  }

  /** Length of the longest prefix of `s` made of `c` alone. */
  function RunLength(s: string, c: char): (n: nat)
    ensures n <= |s| && AllEqual(s[..n], c)
    ensures n < |s| ==> s[n] != c
  {
    if s != "" && s[0] == c then
      var n := RunLength(s[1..], c);
      assert s[..n + 1] == [c] + s[1..][..n];
      n + 1
    else 0
  }

  /** `Vec::join` */
  function Join(parts: seq<string>, separator: string): string {
    if parts == [] then ""
    else if |parts| == 1 then parts[0]
    else parts[0] + separator + Join(parts[1..], separator)
  }

  /** Read from the end: each part follows a separator, but the first. */
  lemma {:induction false} JoinSnoc(parts: seq<string>, last: string, separator: string)
    ensures Join(parts + [last], separator) == if parts == [] then last else Join(parts, separator) + separator + last
  {
    if parts == [] {
      assert parts + [last] == [last];
    } else {
      assert (parts + [last])[1..] == parts[1..] + [last];
      JoinSnoc(parts[1..], last, separator);
    }
  }

  const DIGITS: string := "0123456789"

  predicate IsDigit(c: char) { '0' <= c <= '9' }

  /** Decimal rendering, as `format!("{n}")` writes it. */
  function Decimal(n: nat): (s: string)
    ensures s != "" && forall i :: 0 <= i < |s| ==> IsDigit(s[i])
  {
    if n < 10 then [DIGITS[n]] else Decimal(n / 10) + [DIGITS[n % 10]]
  }

  function DecimalValue(s: string): int {
    if s == "" then 0
    else DecimalValue(s[..|s| - 1]) * 10 + (s[|s| - 1] as int - '0' as int)
  }

  /** Reading a rendered number gives the number back, so rendering is injective. */
  lemma {:induction false} DecimalRoundTrip(n: nat)
    ensures DecimalValue(Decimal(n)) == n
  {
    if n < 10 {
      assert Decimal(n)[..0] == "";
    } else {
      DecimalRoundTrip(n / 10);
      assert Decimal(n)[..|Decimal(n)| - 1] == Decimal(n / 10);
    }
  }

  function FirstMark(s: string, c: char): (k: nat)
    ensures k <= |s| && (k < |s| ==> s[k] == c) && c !in s[..k]
  {
    if s == "" || s[0] == c then 0 else FirstMark(s[1..], c) + 1
  }

  lemma {:induction false} MarkIsAtJoin(c: char, x: string, u: string)
    requires c !in x && (u == "" || u[0] == c)
    ensures FirstMark(x + u, c) == |x|
  {
    if x == "" {
      assert x + u == u;
    } else {
      assert (x + u)[1..] == x[1..] + u;
      MarkIsAtJoin(c, x[1..], u);
    }
  }

  /** Two strings cut at the first occurrence of c, if any, are equal only if their parts are. */
  lemma CutAtMark(c: char, x: string, u: string, y: string, v: string)
    requires x + u == y + v && c !in x && c !in y
    requires (u == "" || u[0] == c) && (v == "" || v[0] == c)
    ensures x == y && u == v
  {
    MarkIsAtJoin(c, x, u);
    MarkIsAtJoin(c, y, v);
    assert (x + u)[..|x|] == x && (y + v)[..|x|] == y;
    assert (x + u)[|x|..] == u && (y + v)[|x|..] == v;
  }
}
