// Columns of the Dart emitter: UTF-16 code units in, UTF-8 bytes out.
module Utf16Columns {
  import opened Basics

  // A Dafny `char` is a Unicode scalar value, as a Rust `char` is.

  /** `char::len_utf16`, section 2.1 of RFC 2781 */
  function Utf16Len(c: char): (n: nat)
    ensures 1 <= n <= 2
  {
    if c as int < 0x1_0000 then 1 else 2
  }

  /** The UTF-8 bytes of a scalar value, section 3 of RFC 3629 */
  function Utf8Bytes(c: char): (b: seq<Byte>)
    ensures 1 <= |b| <= 4
    ensures c as int < 0x80 ==> b == [c as int]
    ensures c as int >= 0x80 ==> forall k :: 0 <= k < |b| ==> 0x80 <= b[k]
  {
    var u := c as int;
    if u < 0x80 then [u]
    else if u < 0x800 then [0xC0 + u / 0x40, 0x80 + u % 0x40]
    else if u < 0x1_0000 then [0xE0 + u / 0x1000, 0x80 + u / 0x40 % 0x40, 0x80 + u % 0x40]
    else
      assert u < 0x11_0000;
      [0xF0 + u / 0x4_0000, 0x80 + u / 0x1000 % 0x40, 0x80 + u / 0x40 % 0x40, 0x80 + u % 0x40]
  }

  /** The UTF-16 code units of a scalar value, section 2.1 of RFC 2781 */
  function Utf16Units(c: char): (r: seq<int>)
    ensures |r| == Utf16Len(c)
  {
    var u := c as int;
    if u < 0x1_0000 then [u]
    else [0xD800 + (u - 0x1_0000) / 0x400, 0xDC00 + (u - 0x1_0000) % 0x400]
  }

  /** Section 2.2 of RFC 2781 */
  function ReadUtf16(units: seq<int>): int
    requires 1 <= |units| <= 2
  {
    if |units| == 1 then units[0] else 0x1_0000 + (units[0] - 0xD800) * 0x400 + (units[1] - 0xDC00)
  }

  /** What the leading byte says of the length, and the bits of all bytes put together: section 3 of RFC 3629. */
  function ReadUtf8(b: seq<int>): int
    requires 1 <= |b| <= 4
  {
    if |b| == 1 then b[0]
    else if |b| == 2 then b[0] % 0x20 * 0x40 + b[1] % 0x40
    else if |b| == 3 then b[0] % 0x10 * 0x1000 + b[1] % 0x40 * 0x40 + b[2] % 0x40
    else b[0] % 8 * 0x4_0000 + b[1] % 0x40 * 0x1000 + b[2] % 0x40 * 0x40 + b[3] % 0x40
  }

  /** Section 2.1 of RFC 2781: a character is read back, and a unit is a surrogate only as half of a pair. */
  lemma Utf16ReadsBack(c: char)
    ensures ReadUtf16(Utf16Units(c)) == c as int && |Utf16Units(c)| == Utf16Len(c)
    ensures forall k :: 0 <= k < Utf16Len(c) ==>
              0 <= Utf16Units(c)[k] < 0x1_0000 && (0xD800 <= Utf16Units(c)[k] < 0xE000 <==> Utf16Len(c) == 2)
  {
    var u := c as int;
    assert u < 0xD800 || 0xE000 <= u < 0x11_0000;
    if 0x1_0000 <= u {
      var v := u - 0x1_0000;
      assert 0 <= v / 0x400 < 0x400 && v == v / 0x400 * 0x400 + v % 0x400;
    }
  }

  lemma DivideTwice(u: nat)
    ensures u / 0x40 / 0x40 == u / 0x1000 && u / 0x1000 / 0x40 == u / 0x4_0000
  {
  }

  /** Section 3 of RFC 3629: a character is read back, and its first byte tells how many there are. */
  lemma Utf8ReadsBack(c: char)
    ensures ReadUtf8(Utf8Bytes(c)) == c as int
    ensures var b := Utf8Bytes(c);
            |b| == (if b[0] < 0x80 then 1 else if b[0] < 0xE0 then 2 else if b[0] < 0xF0 then 3 else 4)
  {
    hide ReadUtf8;
    var u := c as int;
    var x, y, z := u / 0x40, u / 0x1000, u / 0x4_0000;
    assert u < 0x11_0000;
    DivideTwice(u);
    assert u == x * 0x40 + u % 0x40 && x == y * 0x40 + x % 0x40 && y == z * 0x40 + y % 0x40;
    BytesRead(if u < 0x800 then x else if u < 0x1_0000 then y else z, y % 0x40, x % 0x40, u % 0x40);
    OneByteRead(u);
  }

  lemma OneByteRead(u: nat)
    ensures ReadUtf8([u]) == u
  {
  }

  /** A leading byte of each length with the bits h, and bytes that follow with the bits p, q, r. */
  lemma BytesRead(h: nat, p: nat, q: nat, r: nat)
    requires p < 0x40 && q < 0x40 && r < 0x40
    ensures h < 0x20 ==> ReadUtf8([0xC0 + h, 0x80 + r]) == h * 0x40 + r
    ensures h < 0x10 ==> ReadUtf8([0xE0 + h, 0x80 + q, 0x80 + r]) == h * 0x1000 + q * 0x40 + r
    ensures h < 8 ==>
              ReadUtf8([0xF0 + h, 0x80 + p, 0x80 + q, 0x80 + r]) == h * 0x4_0000 + p * 0x1000 + q * 0x40 + r
  {
    assert (0x80 + p) % 0x40 == p && (0x80 + q) % 0x40 == q && (0x80 + r) % 0x40 == r;
    assert h < 0x20 ==> (0xC0 + h) % 0x20 == h;
    assert h < 0x10 ==> (0xE0 + h) % 0x10 == h;
    assert h < 8 ==> (0xF0 + h) % 8 == h;
  }

  /** UTF-16 length of a line. */
  function Units(line: string): nat {
    if line == "" then 0 else Units(line[..|line| - 1]) + Utf16Len(line[|line| - 1])
  }

  /** UTF-8 encoding of a line. */
  function Encode(line: string): seq<Byte> {
    if line == "" then [] else Encode(line[..|line| - 1]) + Utf8Bytes(line[|line| - 1])
  }

  /** Byte column of the k-th character boundary. */
  function ByteColumn(line: string, k: nat): nat
    requires k <= |line|
  {
    |Encode(line[..k])|
  }

  function UnitColumn(line: string, k: nat): nat
    requires k <= |line|
  {
    Units(line[..k])
  }

  lemma UnitsStep(line: string, k: nat)
    requires k < |line|
    ensures UnitColumn(line, k + 1) == UnitColumn(line, k) + Utf16Len(line[k])
    ensures ByteColumn(line, k + 1) == ByteColumn(line, k) + |Utf8Bytes(line[k])|
  {
    assert line[..k + 1][..k] == line[..k];
  }

  /** Both columns strictly increase from boundary to boundary. */
  lemma {:induction false} ColumnsIncrease(line: string, j: nat, k: nat)
    requires j < k <= |line|
    ensures UnitColumn(line, j) < UnitColumn(line, k)
    ensures ByteColumn(line, j) < ByteColumn(line, k)
    decreases k
  {
    UnitsStep(line, k - 1);
    if j < k - 1 {
      ColumnsIncrease(line, j, k - 1);
    }
  }

  /** The byte column of the boundary at a given UTF-16 column; there is at most one such boundary. */
  ghost function Converted(line: string, character: int): (r: Option<nat>)
    ensures forall k :: 0 <= k <= |line| && UnitColumn(line, k) == character ==>
              r == Some(TruncateToU32(ByteColumn(line, k)))
    ensures (forall k :: 0 <= k <= |line| ==> UnitColumn(line, k) != character) ==> r == None
  {
    if k: nat :| k <= |line| && UnitColumn(line, k) == character then
      assert forall j :: 0 <= j <= |line| && UnitColumn(line, j) == character ==> j == k by { BoundaryIsUnique(line); }
      Some(TruncateToU32(ByteColumn(line, k)))
    else None
  }

  lemma BoundaryIsUnique(line: string)
    ensures forall j, k :: 0 <= j < k <= |line| ==> UnitColumn(line, j) != UnitColumn(line, k)
  {
    forall j: nat, k: nat | j < k <= |line|
      ensures UnitColumn(line, j) != UnitColumn(line, k)
    {
      ColumnsIncrease(line, j, k);
    }
  }

  method Utf16ColToByte(line: string, character: int) returns (r: Option<nat>)
    ensures r == Converted(line, character)
  {
    if character < 0 {
      return None;
    }
    var units, bytes := 0, 0;
    var i := 0;
    assert line[..0] == "";
    while i < |line|
      invariant 0 <= i <= |line|
      invariant units == UnitColumn(line, i) && bytes == ByteColumn(line, i)
      invariant forall k :: 0 <= k < i ==> UnitColumn(line, k) != character
      invariant units <= character
    {
      if units == character {
        return Some(TruncateToU32(bytes));
      }
      UnitsStep(line, i);
      units := units + Utf16Len(line[i]);
      bytes := bytes + |Utf8Bytes(line[i])|;
      i := i + 1;
      if units > character {
        forall k | i <= k <= |line|
          ensures UnitColumn(line, k) > character
        {
          if i < k {
            ColumnsIncrease(line, i, k);
          }
        }
        return None;
      }
    }
    return if units == character then Some(TruncateToU32(bytes)) else None;
  }

  /** UTF-16 column `character` falls between the two halves of the k-th character. */
  predicate IsMidSurrogate(line: string, character: int, k: nat)
    requires k < |line|
  {
    Utf16Len(line[k]) == 2 && character == UnitColumn(line, k) + 1
  }

  /** A column is a boundary, or past the end, or inside a surrogate pair. */
  lemma {:induction false} ColumnCases(line: string, character: nat, n: nat)
    requires n <= |line| && character <= UnitColumn(line, n)
    ensures (exists k: nat :: k <= n && UnitColumn(line, k) == character)
         || (exists k: nat :: k < n && IsMidSurrogate(line, character, k))
  {
    if n == 0 {
      assert line[..0] == "";
      assert UnitColumn(line, 0) == character;
    } else {
      UnitsStep(line, n - 1);
      if character <= UnitColumn(line, n - 1) {
        ColumnCases(line, character, n - 1);
      } else if character == UnitColumn(line, n) {
      } else {
        assert IsMidSurrogate(line, character, n - 1);
      }
    }
  }

  /** A boundary is neither past the end nor inside a surrogate pair. */
  lemma BoundaryIsNoGap(line: string, k: nat, m: nat)
    requires k <= |line| && m < |line|
    ensures UnitColumn(line, k) <= UnitColumn(line, |line|)
    ensures !IsMidSurrogate(line, UnitColumn(line, k), m)
  {
    hide UnitColumn, Utf16Len;
    if k < |line| {
      ColumnsIncrease(line, k, |line|);
    }
    UnitsStep(line, m);
    if m < k {
      if m + 1 < k {
        ColumnsIncrease(line, m + 1, k);
      }
    } else if k < m {
      ColumnsIncrease(line, k, m);
    }
  }

  /** No byte column exactly for negative, past-end and mid-surrogate columns. */
  lemma NoColumnExactlyWhen(line: string, character: int)
    ensures Converted(line, character) == None <==>
              || character < 0
              || UnitColumn(line, |line|) < character
              || exists k: nat :: k < |line| && IsMidSurrogate(line, character, k)
  {
    hide UnitColumn, IsMidSurrogate;
    if 0 <= character <= UnitColumn(line, |line|) {
      ColumnCases(line, character, |line|);
    }
    if Converted(line, character).Some? {
      var k := BoundaryOf(line, character);
      forall m: nat | m < |line|
        ensures !IsMidSurrogate(line, character, m)
      {
        BoundaryIsNoGap(line, k, m);
      }
      if k < |line| {
        ColumnsIncrease(line, k, |line|);
      }
    }
  }

  /** Every byte column of the line fits in 32 bits. */
  predicate IsShort(line: string) { |Encode(line)| < U32_RANGE }

  lemma ByteColumnsInLine(line: string)
    ensures forall k :: 0 <= k <= |line| ==> ByteColumn(line, k) <= ByteColumn(line, |line|) == |Encode(line)|
  {
    hide Encode;
    assert line[..|line|] == line;
    forall k | 0 <= k <= |line|
      ensures ByteColumn(line, k) <= |Encode(line)|
    {
      EncodePrefix(line, k);
    }
  }

  /**
   * The conversion inverts the UTF-16 length of a prefix exactly when the
   * prefix's byte length fits in 32 bits, so of all prefixes exactly when the
   * line's does.
   */
  lemma ConversionInverts(line: string)
    ensures forall k :: 0 <= k <= |line| ==>
              (Converted(line, UnitColumn(line, k)) == Some(ByteColumn(line, k)) <==> ByteColumn(line, k) < U32_RANGE)
    ensures (forall k :: 0 <= k <= |line| ==> Converted(line, UnitColumn(line, k)) == Some(ByteColumn(line, k)))
              <==> IsShort(line)
  {
    hide Encode, ByteColumn, UnitColumn;
    ByteColumnsInLine(line);
    assert Converted(line, UnitColumn(line, |line|)) == Some(TruncateToU32(ByteColumn(line, |line|)));
  }

  lemma BoundaryOf(line: string, character: int) returns (k: nat)
    requires Converted(line, character).Some?
    ensures k <= |line| && UnitColumn(line, k) == character
    ensures Converted(line, character) == Some(TruncateToU32(ByteColumn(line, k)))
    ensures ByteColumn(line, k) <= |Encode(line)|
  {
    k :| k <= |line| && UnitColumn(line, k) == character;
    EncodePrefix(line, k);
  }

  /** Where both exist, a later UTF-16 column has a later byte column. */
  ghost predicate KeepsOrder(line: string) {
    forall a: int, b: int ::
      a < b && Converted(line, a).Some? && Converted(line, b).Some? ==>
        Converted(line, a).value < Converted(line, b).value
  }

  lemma ShortKeepsOrder(line: string, a: int, b: int)
    requires IsShort(line)
    requires a < b && Converted(line, a).Some? && Converted(line, b).Some?
    ensures Converted(line, a).value < Converted(line, b).value
  {
    hide Converted, UnitColumn, ByteColumn, Encode;
    var j := BoundaryOf(line, a);
    var k := BoundaryOf(line, b);
    if k < j {
      ColumnsIncrease(line, k, j);
    } else {
      ColumnsIncrease(line, j, k);
    }
  }

  /** The first boundary at or past column `limit`. */
  lemma {:induction false} FirstPast(line: string, limit: nat, n: nat) returns (k: nat)
    requires 0 < limit && n <= |line| && limit <= ByteColumn(line, n)
    ensures k < n && ByteColumn(line, k) < limit <= ByteColumn(line, k + 1) <= ByteColumn(line, k) + 4
  {
    assert line[..0] == "";
    UnitsStep(line, n - 1);
    if ByteColumn(line, n - 1) < limit {
      k := n - 1;
    } else {
      k := FirstPast(line, limit, n - 1);
    }
  }

  /** The conversion is strictly increasing exactly on lines whose byte length fits in 32 bits. */
  lemma ConversionIncreases(line: string)
    ensures KeepsOrder(line) <==> IsShort(line)
  {
    hide Converted, UnitColumn, ByteColumn, Encode;
    if IsShort(line) {
      forall a: int, b: int | a < b && Converted(line, a).Some? && Converted(line, b).Some?
        ensures Converted(line, a).value < Converted(line, b).value
      {
        ShortKeepsOrder(line, a, b);
      }
    } else {
      ByteColumnsInLine(line);
      var k := FirstPast(line, U32_RANGE, |line|);
      ColumnsIncrease(line, k, k + 1);
      BoundaryConverts(line, k);
      BoundaryConverts(line, k + 1);
    }
  }

  lemma BoundaryConverts(line: string, k: nat)
    requires k <= |line|
    ensures Converted(line, UnitColumn(line, k)) == Some(TruncateToU32(ByteColumn(line, k)))
  {
  }

  // ----- the encoding-agnostic rule -----

  /** The column, kept only while the line up to it is ASCII, byte for byte. */
  function EncodingAgnosticCol(line: string, character: int): Option<nat> {
    if character < 0 || |Encode(line)| < character then None
    else if forall k :: 0 <= k < character ==> Encode(line)[k] < 0x80 then Some(TruncateToU32(character))
    else None
  }

  lemma {:induction false} EncodePrefix(line: string, k: nat)
    requires k <= |line|
    ensures Encode(line[..k]) <= Encode(line)
    decreases |line|
  {
    if k < |line| {
      EncodePrefix(line[..|line| - 1], k);
      assert line[..|line| - 1][..k] == line[..k];
    } else {
      assert line[..k] == line;
    }
  }

  /** While a prefix of the bytes is ASCII, characters, bytes and UTF-16 units count the same. */
  lemma {:induction false} AsciiColumnsAgree(line: string, n: nat)
    requires n <= |Encode(line)| && forall k :: 0 <= k < n ==> Encode(line)[k] < 0x80
    ensures n <= |line| && UnitColumn(line, n) == n == ByteColumn(line, n)
  {
    hide UnitColumn, ByteColumn, Encode, Utf8Bytes, Utf16Len;
    if n == 0 {
      NothingEncoded(line);
    } else {
      AsciiColumnsAgree(line, n - 1);
      WholeLineEncoded(line);
      UnitsStep(line, n - 1);
      AsciiCharacter(line, n - 1);
    }
  }

  lemma NothingEncoded(line: string)
    ensures UnitColumn(line, 0) == 0 == ByteColumn(line, 0)
  {
    assert line[..0] == "";
  }

  lemma WholeLineEncoded(line: string)
    ensures ByteColumn(line, |line|) == |Encode(line)|
  {
    assert line[..|line|] == line;
  }

  /**
   * The byte at the column of a character is the first of its bytes; if it is
   * ASCII the character is one byte and one unit.
   */
  lemma AsciiCharacter(line: string, k: nat)
    requires k < |line| && ByteColumn(line, k) < |Encode(line)| && Encode(line)[ByteColumn(line, k)] < 0x80
    ensures |Utf8Bytes(line[k])| == 1 == Utf16Len(line[k])
  {
    hide Utf8Bytes;
    EncodePrefix(line, k + 1);
    var c := line[k];
    assert line[..k + 1][..k] == line[..k];
    assert Encode(line[..k + 1]) == Encode(line[..k]) + Utf8Bytes(c);
    assert Encode(line)[ByteColumn(line, k)] == Utf8Bytes(c)[0];
  }

  /** Whenever the cautious rule gives a column, the conversion gives the same one. */
  lemma AgnosticColAgrees(line: string, character: int)
    requires EncodingAgnosticCol(line, character).Some?
    ensures Converted(line, character) == EncodingAgnosticCol(line, character)
  {
    AsciiColumnsAgree(line, character);
  }

  /** The cautious rule gives a column exactly where it is reached by ASCII characters alone. */
  lemma AgnosticColExactly(line: string, character: int)
    ensures EncodingAgnosticCol(line, character).Some? <==>
              0 <= character <= |line| && forall k :: 0 <= k < character ==> line[k] as int < 0x80
  {
    if EncodingAgnosticCol(line, character).Some? {
      AsciiColumnsAgree(line, character);
      forall k | 0 <= k < character
        ensures line[k] as int < 0x80
      {
        AsciiPrefixIsAscii(line, character, k);
      }
    } else if 0 <= character <= |line| && forall k :: 0 <= k < character ==> line[k] as int < 0x80 {
      AsciiIsBytes(line[..character]);
      EncodePrefix(line, character);
    }
  }

  lemma AsciiPrefixIsAscii(line: string, n: nat, k: nat)
    requires k < n <= |Encode(line)| && forall j :: 0 <= j < n ==> Encode(line)[j] < 0x80
    ensures k < |line| && line[k] as int < 0x80
  {
    hide Encode, Utf16Len;
    AsciiColumnsAgree(line, k);
    AsciiColumnsAgree(line, n);
    AsciiCharacter(line, k);
    OneByteIsAscii(line[k]);
  }

  lemma OneByteIsAscii(c: char)
    ensures |Utf8Bytes(c)| == 1 ==> c as int < 0x80
  {
  }

  lemma {:induction false} AsciiIsBytes(s: string)
    requires forall k :: 0 <= k < |s| ==> s[k] as int < 0x80
    ensures |Encode(s)| == |s| && forall k :: 0 <= k < |s| ==> Encode(s)[k] < 0x80
  {
    if s != "" {
      AsciiIsBytes(s[..|s| - 1]);
    }
  }
}
