// Inline captures of a format-string literal, and where they stand in the file.
module FormatCaptures {
  import opened Basics

  const NEWLINE: Byte := 0x0A
  const COLON: Byte := 0x3A
  const UNDERSCORE: Byte := 0x5F
  const OPEN_BRACE: Byte := 0x7B
  const CLOSE_BRACE: Byte := 0x7D

  predicate IsAsciiDigit(b: Byte) { 0x30 <= b <= 0x39 }

  predicate IsAsciiUppercase(b: Byte) { 0x41 <= b <= 0x5A }

  predicate IsIdentByte(b: Byte) {
    IsAsciiDigit(b) || IsAsciiUppercase(b) || 0x61 <= b <= 0x7A || b == UNDERSCORE
  }

  datatype Capture = Capture(offset: nat, name: seq<Byte>)

  // ----- what a capture is -----

  /** How many `{` stand directly before position k. */
  function BracesBefore(lit: seq<Byte>, k: nat): nat
    requires k <= |lit|
  {
    if k == 0 || lit[k - 1] != OPEN_BRACE then 0 else BracesBefore(lit, k - 1) + 1
  }

  /** End of the identifier bytes from position k on. */
  function IdentEnd(lit: seq<Byte>, k: nat): (j: nat)
    requires k <= |lit|
    ensures k <= j <= |lit|
    ensures forall x :: k <= x < j ==> IsIdentByte(lit[x])
    ensures j < |lit| ==> !IsIdentByte(lit[j])
    decreases |lit| - k
  {
    if k < |lit| && IsIdentByte(lit[k]) then IdentEnd(lit, k + 1) else k
  }

  /**
   * A capture's name begins at `start`: just after the last brace of a maximal
   * run of `{` of odd length, as a maximal run of identifier bytes that is not
   * empty, does not begin with a digit, has an upper-case letter, and is
   * followed by `}` or `:`.
   */
  predicate IsCaptureAt(lit: seq<Byte>, start: nat)
    requires start <= |lit|
  {
    var j := IdentEnd(lit, start);
    && BracesBefore(lit, start) % 2 == 1
    && (start < |lit| ==> lit[start] != OPEN_BRACE)
    && start < j
    && !IsAsciiDigit(lit[start])
    && j < |lit| && (lit[j] == CLOSE_BRACE || lit[j] == COLON)
    && exists x :: start <= x < j && IsAsciiUppercase(lit[x])
  }

  /** All captures whose names begin at k or later, in order. */
  function CapturesFrom(lit: seq<Byte>, k: nat): seq<Capture>
    requires k <= |lit|
    decreases |lit| - k
  {
    var here := if IsCaptureAt(lit, k) then [Capture(k, lit[k..IdentEnd(lit, k)])] else [];
    if k == |lit| then here else here + CapturesFrom(lit, k + 1)
  }

  /** Membership spelled out: sound and complete. */
  lemma {:induction false} CapturesAreExactly(lit: seq<Byte>, k: nat, c: Capture)
    requires k <= |lit|
    ensures c in CapturesFrom(lit, k) <==>
              k <= c.offset <= |lit| && IsCaptureAt(lit, c.offset) && c.name == lit[c.offset..IdentEnd(lit, c.offset)]
    decreases |lit| - k
  {
    hide IsCaptureAt, IdentEnd;
    if k < |lit| {
      CapturesAreExactly(lit, k + 1, c);
    }
  }

  /** ASCII letters, digits and the underscore. */
  predicate IsIdentChar(b: Byte) {
    48 <= b <= 57 || 65 <= b <= 90 || 97 <= b <= 122 || b == 95
  }

  /** Before position `at` there are exactly n `{`. */
  predicate IsBraceRun(lit: seq<Byte>, at: nat, n: nat) {
    && n <= at <= |lit|
    && (forall k :: at - n <= k < at ==> lit[k] == 123)
    && (n < at ==> lit[at - n - 1] != 123)
  }

  /**
   * The literal reads, around position `at`: an odd number of `{` and no more, a
   * name of identifier characters that does not begin with a digit and has an
   * upper-case letter, and then `}` or `:`.
   */
  ghost predicate IsSpelledAt(lit: seq<Byte>, at: nat, name: seq<Byte>) {
    && at + |name| < |lit| && lit[at..at + |name|] == name
    && (exists n: nat :: n % 2 == 1 && IsBraceRun(lit, at, n))
    && name != [] && !(48 <= name[0] <= 57)
    && (forall k :: 0 <= k < |name| ==> IsIdentChar(name[k]))
    && (exists k :: 0 <= k < |name| && 65 <= name[k] <= 90)
    && (lit[at + |name|] == 125 || lit[at + |name|] == 58)
  }

  lemma {:induction false} BracesAre(lit: seq<Byte>, k: nat, n: nat)
    requires k <= |lit|
    ensures BracesBefore(lit, k) == n <==> IsBraceRun(lit, k, n)
    decreases k
  {
    if k != 0 && lit[k - 1] == OPEN_BRACE {
      if n != 0 {
        BracesAre(lit, k - 1, n - 1);
      }
    }
  }

  /** The captures are exactly what is spelled like that. */
  lemma CaptureIsSpelled(lit: seq<Byte>, at: nat, name: seq<Byte>)
    ensures Capture(at, name) in CapturesFrom(lit, 0) <==> IsSpelledAt(lit, at, name)
  {
    hide CapturesFrom, BracesBefore, IsBraceRun;
    CapturesAreExactly(lit, 0, Capture(at, name));
    if at <= |lit| {
      SpelledName(lit, at, name);
      OddRun(lit, at);
    }
  }

  lemma OddRun(lit: seq<Byte>, at: nat)
    requires at <= |lit|
    ensures BracesBefore(lit, at) % 2 == 1 <==> exists n: nat :: n % 2 == 1 && IsBraceRun(lit, at, n)
  {
    hide BracesBefore, IsBraceRun;
    BracesAre(lit, at, BracesBefore(lit, at));
    if n: nat :| n % 2 == 1 && IsBraceRun(lit, at, n) {
      BracesAre(lit, at, n);
    }
  }

  lemma SpelledName(lit: seq<Byte>, at: nat, name: seq<Byte>)
    requires at <= |lit|
    ensures var j := IdentEnd(lit, at);
            (&& (at < |lit| ==> lit[at] != OPEN_BRACE) && at < j && !IsAsciiDigit(lit[at]) && j < |lit|
             && (lit[j] == CLOSE_BRACE || lit[j] == COLON)
             && (exists x :: at <= x < j && IsAsciiUppercase(lit[x]))
             && name == lit[at..j]) <==>
              (&& at + |name| < |lit| && lit[at..at + |name|] == name
               && name != [] && !(48 <= name[0] <= 57)
               && (forall k :: 0 <= k < |name| ==> IsIdentChar(name[k]))
               && (exists k :: 0 <= k < |name| && 65 <= name[k] <= 90)
               && (lit[at + |name|] == 125 || lit[at + |name|] == 58))
  {
    hide IdentEnd;
    var j := IdentEnd(lit, at);
    if at + |name| < |lit| && lit[at..at + |name|] == name {
      assert forall k :: 0 <= k < |name| ==> lit[at + k] == name[k];
    }
    if at < j {
      assert forall x :: at <= x < j ==> lit[x] == lit[at..j][x - at];
    }
  }

  /** Offsets strictly increase, from k on. */
  predicate OffsetsIncrease(cs: seq<Capture>, k: nat) {
    && (forall x :: 0 <= x < |cs| ==> k <= cs[x].offset)
    && (forall x, y :: 0 <= x < y < |cs| ==> cs[x].offset < cs[y].offset)
  }

  lemma OffsetsIncreaseCons(c: Capture, rest: seq<Capture>)
    requires OffsetsIncrease(rest, c.offset + 1)
    ensures OffsetsIncrease([c] + rest, c.offset)
  {
    var cs := [c] + rest;
    assert forall x :: 0 < x < |cs| ==> cs[x] == rest[x - 1];
  }

  lemma {:induction false} CapturesInOrder(lit: seq<Byte>, k: nat)
    requires k <= |lit|
    ensures OffsetsIncrease(CapturesFrom(lit, k), k)
    decreases |lit| - k
  {
    hide IsCaptureAt, IdentEnd, CapturesFrom, OffsetsIncrease;
    if k == |lit| {
      CapturesAtEnd(lit);
    } else {
      CapturesInOrder(lit, k + 1);
      CapturesStep(lit, k);
      LaterOffsets(CapturesFrom(lit, k + 1), k);
      if IsCaptureAt(lit, k) {
        OffsetsIncreaseCons(Capture(k, lit[k..IdentEnd(lit, k)]), CapturesFrom(lit, k + 1));
      }
    }
  }

  lemma CapturesAtEnd(lit: seq<Byte>)
    ensures OffsetsIncrease(CapturesFrom(lit, |lit|), |lit|)
  {
    hide IsCaptureAt, IdentEnd;
  }

  lemma CapturesStep(lit: seq<Byte>, k: nat)
    requires k < |lit|
    ensures CapturesFrom(lit, k) ==
              if IsCaptureAt(lit, k) then [Capture(k, lit[k..IdentEnd(lit, k)])] + CapturesFrom(lit, k + 1)
              else CapturesFrom(lit, k + 1)
  {
    hide IsCaptureAt, IdentEnd;
    assert [] + CapturesFrom(lit, k + 1) == CapturesFrom(lit, k + 1);
  }

  lemma LaterOffsets(cs: seq<Capture>, k: nat)
    requires OffsetsIncrease(cs, k + 1)
    ensures OffsetsIncrease(cs, k)
  {
  }

  // ----- the scan -----

  /** Inside and at the end of an identifier no further capture begins. */
  lemma {:induction false} NoCaptureInIdent(lit: seq<Byte>, k: nat, j: nat)
    requires k <= j <= |lit| && forall x :: k <= x < j ==> IsIdentByte(lit[x])
    requires !IsCaptureAt(lit, k)
    ensures CapturesFrom(lit, k) == CapturesFrom(lit, j)
    ensures !IsCaptureAt(lit, j)
    decreases j - k
  {
    hide IdentEnd, CapturesFrom, IsCaptureAt, BracesBefore, IsIdentByte;
    if k < j {
      NoCaptureAfterIdentByte(lit, k);
      CapturesStep(lit, k);
      NoCaptureInIdent(lit, k + 1, j);
    }
  }

  lemma NoCaptureAfterIdentByte(lit: seq<Byte>, k: nat)
    requires k < |lit| && IsIdentByte(lit[k])
    ensures !IsCaptureAt(lit, k + 1)
  {
    hide IdentEnd;
    assert lit[k] != OPEN_BRACE;
    assert BracesBefore(lit, k + 1) == 0;
  }

  /** The scan may stand at i: no capture begins there, and if a brace does, an even number of them stand before it. */
  predicate AtRest(lit: seq<Byte>, i: nat)
    requires i <= |lit|
  {
    !IsCaptureAt(lit, i) && (i < |lit| && lit[i] == OPEN_BRACE ==> BracesBefore(lit, i) % 2 == 0)
  }

  method FormatCaptures(lit: seq<Byte>) returns (out: seq<Capture>)
    ensures out == CapturesFrom(lit, 0)
  {
    hide IdentEnd, BracesBefore, CapturesFrom, AtRest, IsCaptureAt, IsIdentByte;
    out := [];
    var i := 0;
    assert AtRest(lit, 0) by { RestAtStart(lit); }
    while i < |lit|
      invariant 0 <= i <= |lit|
      invariant out + CapturesFrom(lit, i) == CapturesFrom(lit, 0)
      invariant AtRest(lit, i)
    {
      if lit[i] != OPEN_BRACE {
        StepOver(lit, i);
        i := i + 1;
        continue;
      }
      if i + 1 < |lit| && lit[i + 1] == OPEN_BRACE {
        StepOverPair(lit, i);
        i := i + 2;
        continue;
      }
      var start := i + 1;
      var j := ScanIdent(lit, start);
      OddBrace(lit, i);
      SkipIdent(lit, start);
      CaptureTest(lit, start);
      if j > start && !IsAsciiDigit(lit[start]) && j < |lit| && (lit[j] == CLOSE_BRACE || lit[j] == COLON)
         && exists x :: start <= x < j && IsAsciiUppercase(lit[x])
      {
        out := out + [Capture(start, lit[start..j])];
      }
      i := Max(j, start);
    }
    RestAtEnd(lit);
  }

  /** After a single brace, what is left to look at. */
  lemma CaptureTest(lit: seq<Byte>, start: nat)
    requires start <= |lit| && BracesBefore(lit, start) % 2 == 1 && (start < |lit| ==> lit[start] != OPEN_BRACE)
    ensures var j := IdentEnd(lit, start);
            IsCaptureAt(lit, start) <==>
              && j > start && !IsAsciiDigit(lit[start]) && j < |lit| && (lit[j] == CLOSE_BRACE || lit[j] == COLON)
              && exists x :: start <= x < j && IsAsciiUppercase(lit[x])
  {
    hide IdentEnd, BracesBefore;
  }

  lemma RestAtStart(lit: seq<Byte>)
    ensures AtRest(lit, 0)
  {
  }

  lemma RestAtEnd(lit: seq<Byte>)
    ensures AtRest(lit, |lit|) ==> CapturesFrom(lit, |lit|) == []
  {
  }

  lemma StepOver(lit: seq<Byte>, i: nat)
    requires i < |lit| && lit[i] != OPEN_BRACE && AtRest(lit, i)
    ensures AtRest(lit, i + 1) && CapturesFrom(lit, i) == CapturesFrom(lit, i + 1)
  {
    hide IdentEnd;
  }

  lemma StepOverPair(lit: seq<Byte>, i: nat)
    requires i + 1 < |lit| && lit[i] == OPEN_BRACE && lit[i + 1] == OPEN_BRACE && AtRest(lit, i)
    ensures AtRest(lit, i + 2) && CapturesFrom(lit, i) == CapturesFrom(lit, i + 2)
  {
    hide IdentEnd;
    assert BracesBefore(lit, i + 2) == BracesBefore(lit, i) + 2;
    assert !IsCaptureAt(lit, i + 1);
  }

  lemma OddBrace(lit: seq<Byte>, i: nat)
    requires i < |lit| && lit[i] == OPEN_BRACE && AtRest(lit, i)
    requires i + 1 < |lit| ==> lit[i + 1] != OPEN_BRACE
    ensures BracesBefore(lit, i + 1) % 2 == 1 && CapturesFrom(lit, i) == CapturesFrom(lit, i + 1)
  {
    hide IdentEnd;
  }

  /** From the identifier after a single brace to its end: the capture it makes, and nothing else. */
  lemma SkipIdent(lit: seq<Byte>, start: nat)
    requires 0 < start <= |lit| && (start < |lit| ==> lit[start] != OPEN_BRACE)
    ensures var j := IdentEnd(lit, start);
            && AtRest(lit, j)
            && CapturesFrom(lit, start) ==
               (if IsCaptureAt(lit, start) then [Capture(start, lit[start..j])] else []) + CapturesFrom(lit, j)
  {
    hide CapturesFrom, IdentEnd, IsIdentByte;
    var j := IdentEnd(lit, start);
    if IsCaptureAt(lit, start) {
      CapturesStep(lit, start);
      NoCaptureAfterIdentByte(lit, start);
      NoCaptureInIdent(lit, start + 1, j);
    } else {
      NoCaptureInIdent(lit, start, j);
      assert [] + CapturesFrom(lit, j) == CapturesFrom(lit, j);
    }
    if start < j {
      NoBraceInIdent(lit[j - 1]);
    }
  }

  lemma NoBraceInIdent(b: Byte)
    ensures IsIdentByte(b) ==> b != OPEN_BRACE
  {
  }

  method ScanIdent(lit: seq<Byte>, start: nat) returns (j: nat)
    requires start <= |lit|
    ensures j == IdentEnd(lit, start)
  {
    j := start;
    while j < |lit| && IsIdentByte(lit[j])
      invariant start <= j <= |lit|
      invariant IdentEnd(lit, j) == IdentEnd(lit, start)
    {
      j := j + 1;
    }
  }

  // ----- positions -----

  // Largest `usize` and largest slice length on a 64-bit machine.
  const USIZE_MAX: nat := 0xFFFF_FFFF_FFFF_FFFF
  const ISIZE_MAX: nat := 0x7FFF_FFFF_FFFF_FFFF

  // Row from zero, column in bytes.
  datatype Point = Point(row: nat, column: nat)

  function Newlines(text: seq<Byte>): nat {
    if text == [] then 0
    else Newlines(text[..|text| - 1]) + (if text[|text| - 1] == NEWLINE then 1 else 0)
  }

  /** As many as there are positions that hold a line feed. */
  lemma {:induction false} NewlinesAreCounted(text: seq<Byte>)
    ensures Newlines(text) == |set k | 0 <= k < |text| && text[k] == 10|
  {
    if text != [] {
      var before := text[..|text| - 1];
      NewlinesAreCounted(before);
      var there := set k | 0 <= k < |before| && before[k] == 10;
      var all := set k | 0 <= k < |text| && text[k] == 10;
      assert all == there + (if text[|text| - 1] == 10 then {|text| - 1} else {});
    }
  }

  /** Bytes after the last newline, all of them if there is none. */
  function TailLen(text: seq<Byte>): (n: nat)
    ensures n <= |text|
  {
    if text == [] || text[|text| - 1] == NEWLINE then 0 else TailLen(text[..|text| - 1]) + 1
  }

  /** The tail holds no line feed, and begins below one or at the start. */
  lemma {:induction false} TailIsLastLine(text: seq<Byte>)
    ensures forall k :: |text| - TailLen(text) <= k < |text| ==> text[k] != 10
    ensures TailLen(text) < |text| ==> text[|text| - TailLen(text) - 1] == 10
  {
    if text != [] {
      TailIsLastLine(text[..|text| - 1]);
    }
  }

  /** Where position k of a file is, counted from the start of the file. */
  function PointAt(file: seq<Byte>, k: nat): Point
    requires k <= |file|
  {
    Point(Newlines(file[..k]), TailLen(file[..k]))
  }

  function LastNewline(text: seq<Byte>): (r: Option<nat>)
    ensures r.Some? ==> r.value < |text| && text[r.value] == NEWLINE
    ensures r.Some? ==> forall x :: r.value < x < |text| ==> text[x] != NEWLINE
    ensures r == None ==> forall x :: 0 <= x < |text| ==> text[x] != NEWLINE
  {
    if text == [] then None
    else if text[|text| - 1] == NEWLINE then Some(|text| - 1)
    else LastNewline(text[..|text| - 1])
  }

  function SaturatingAdd(a: nat, b: nat): nat {
    Min(a + b, USIZE_MAX)
  }

  /** Line (from one) and column of a capture, before narrowing. */
  function RawPosition(lit: seq<Byte>, offset: nat, start: Point): (nat, nat)
    requires offset <= |lit|
  {
    var prefix := lit[..offset];
    var column :=
      match LastNewline(prefix)
      case Some(nl) => offset - nl - 1
      case None => start.column + offset;
    (SaturatingAdd(SaturatingAdd(start.row, Newlines(prefix)), 1), column)
  }

  function CapturePosition(lit: seq<Byte>, offset: nat, start: Point): (nat, nat)
    requires offset <= |lit|
  {
    var (line, column) := RawPosition(lit, offset, start);
    (TruncateToU32(line), TruncateToU32(column))
  }

  lemma {:induction false} NewlinesJoin(a: seq<Byte>, b: seq<Byte>)
    ensures Newlines(a + b) == Newlines(a) + Newlines(b)
    ensures TailLen(a + b) == if LastNewline(b).Some? then |b| - LastNewline(b).value - 1 else TailLen(a) + |b|
    decreases |b|
  {
    if b == [] {
      assert a + b == a;
    } else {
      assert (a + b)[..|a + b| - 1] == a + b[..|b| - 1];
      NewlinesJoin(a, b[..|b| - 1]);
    }
  }

  lemma {:induction false} NewlinesBounded(text: seq<Byte>)
    ensures Newlines(text) <= |text|
  {
    if text != [] {
      NewlinesBounded(text[..|text| - 1]);
    }
  }

  /** Before it is narrowed, the position is the one counted from the start of the file. */
  lemma RawPositionIsExact(file: seq<Byte>, p: nat, lit: seq<Byte>, offset: nat)
    requires |file| <= ISIZE_MAX
    requires p + |lit| <= |file| && file[p..p + |lit|] == lit && offset <= |lit|
    ensures var there := PointAt(file, p + offset);
            RawPosition(lit, offset, PointAt(file, p)) == (there.row + 1, there.column)
  {
    hide Newlines, TailLen, LastNewline;
    assert file[..p + offset] == file[..p] + lit[..offset] by {
      assert lit[..offset] == file[p..p + offset];
    }
    NewlinesJoin(file[..p], lit[..offset]);
    NewlinesBounded(file[..p + offset]);
  }

  /**
   * For a literal that stands at position p of a file, the reported position
   * is the capture's position counted from the start of the file, exactly when
   * line and column both fit in 32 bits.
   */
  lemma CapturePositionIsExact(file: seq<Byte>, p: nat, lit: seq<Byte>, offset: nat)
    requires |file| <= ISIZE_MAX
    requires p + |lit| <= |file| && file[p..p + |lit|] == lit && offset <= |lit|
    ensures var there := PointAt(file, p + offset);
            CapturePosition(lit, offset, PointAt(file, p)) == (there.row + 1, there.column)
            <==> there.row + 1 < U32_RANGE && there.column < U32_RANGE
  {
    hide PointAt, RawPosition;
    RawPositionIsExact(file, p, lit, offset);
  }
}
