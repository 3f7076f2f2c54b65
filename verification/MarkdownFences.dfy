// Fenced code blocks: what opens a fence, what closes it, and the state a
// reader is in before each line.  Three loops of the chunker track this state
// with code of their own; `FenceBefore` is the one meaning they share.
module MarkdownFences {
  import opened Basics
  import opened Text

  datatype Fence = Fence(mark: char, len: nat)

  function FenceOpen(trimmed: string): (r: Option<Fence>)
    ensures r.Some? ==> r.value.mark in {'`', '~'} && 3 <= r.value.len
  {
    if trimmed == "" || (trimmed[0] != '`' && trimmed[0] != '~') then None
    else
      var run := RunLength(trimmed, trimmed[0]);
      if 3 <= run then Some(Fence(trimmed[0], run)) else None
  }

  predicate IsFenceClose(trimmed: string, fence: Fence) {
    trimmed != "" && trimmed[0] == fence.mark &&
    var run := RunLength(trimmed, fence.mark);
    fence.len <= run && AllWhitespace(trimmed[run..])
  }

  /** One line of the state machine: inside a fence only its close matters, outside only an opener. */
  function FenceAfter(fence: Option<Fence>, line: string): Option<Fence> {
    match fence
    case Some(f) => if IsFenceClose(Trim(line), f) then None else fence
    case None => FenceOpen(Trim(line))
  }

  /** Fence state just before `lines[i]`, reading from `lines[from]` outside any fence. */
  function FenceBefore(lines: seq<string>, from: nat, i: nat): Option<Fence>
    requires from <= i <= |lines|
    decreases i
  {
    if i == from then None else FenceAfter(FenceBefore(lines, from, i - 1), lines[i - 1])
  }

  lemma FenceStep(lines: seq<string>, from: nat, i: nat)
    requires from <= i < |lines|
    ensures FenceBefore(lines, from, i + 1) == FenceAfter(FenceBefore(lines, from, i), lines[i])
  {
    hide FenceAfter;
  }

  /** `lines[i]` belongs to a fence: it opens one, or the reader is inside one. */
  predicate IsFenced(lines: seq<string>, from: nat, i: nat)
    requires from <= i < |lines|
  {
    FenceBefore(lines, from, i).Some? || FenceOpen(Trim(lines[i])).Some?
  }

  /** The first character of a fence opener is a marker, so the trimmed line is a marker run and then something else. */
  lemma FenceOpenIsMarkerRun(trimmed: string)
    ensures FenceOpen(trimmed).Some? <==>
              3 <= |trimmed| && trimmed[0] in {'`', '~'} && trimmed[1] == trimmed[0] && trimmed[2] == trimmed[0]
  {
    if trimmed != "" {
      var run := RunLength(trimmed, trimmed[0]);
      assert AllEqual(trimmed[..run], trimmed[0]);
      if 3 <= run {
        assert trimmed[..run][1] == trimmed[0] && trimmed[..run][2] == trimmed[0];
      }
    }
  }

  /** An opener is a run of marks of its own length, and no longer. */
  lemma FenceOpenExactly(trimmed: string, fence: Fence)
    ensures FenceOpen(trimmed) == Some(fence) <==>
              && (fence.mark == '`' || fence.mark == '~')
              && 3 <= fence.len <= |trimmed|
              && (forall k :: 0 <= k < fence.len ==> trimmed[k] == fence.mark)
              && (fence.len < |trimmed| ==> trimmed[fence.len] != fence.mark)
  {
    if trimmed != "" {
      var run := RunLength(trimmed, trimmed[0]);
      assert forall k :: 0 <= k < run ==> trimmed[k] == trimmed[..run][k];
    }
  }

  /**
   * A trimmed line closes a fence exactly when it is nothing but the fence's
   * marker, at least as often as in the opener: the "only white space after
   * the run" test of the code never accepts anything else on a trimmed line.
   */
  lemma FenceCloseIsPureRun(line: string, fence: Fence)
    requires fence.mark in {'`', '~'} && 1 <= fence.len
    ensures IsFenceClose(Trim(line), fence) <==> fence.len <= |Trim(line)| && AllEqual(Trim(line), fence.mark)
  {
    var t := Trim(line);
    if t != "" {
      var run := RunLength(t, fence.mark);
      if run < |t| {
        assert t[run..][|t| - run - 1] == t[|t| - 1];
        assert t[run] != fence.mark;
      } else {
        assert t[..run] == t;
      }
      if AllEqual(t, fence.mark) {
        assert run == |t|;
      }
    }
  }

  /** Two readers that are once in the same state stay so. */
  lemma {:induction false} FenceMeet(lines: seq<string>, a: nat, b: nat, mid: nat, i: nat)
    requires a <= mid && b <= mid <= i <= |lines|
    requires FenceBefore(lines, a, mid) == FenceBefore(lines, b, mid)
    ensures FenceBefore(lines, a, i) == FenceBefore(lines, b, i)
    decreases i
  {
    hide FenceAfter;
    if mid < i {
      FenceMeet(lines, a, b, mid, i - 1);
    }
  }

  /** Reading may be restarted at any point that lies outside a fence. */
  lemma FenceRestart(lines: seq<string>, from: nat, mid: nat, i: nat)
    requires from <= mid <= i <= |lines|
    requires FenceBefore(lines, from, mid) == None
    ensures FenceBefore(lines, from, i) == FenceBefore(lines, mid, i)
  {
    FenceMeet(lines, from, mid, mid, i);
  }

  /** Whatever state the reader is in, it is the state an opener set. */
  lemma {:induction false} FenceStateIsOpened(lines: seq<string>, from: nat, i: nat)
    requires from <= i <= |lines|
    ensures FenceBefore(lines, from, i).Some? ==>
              FenceBefore(lines, from, i).value.mark in {'`', '~'} && 3 <= FenceBefore(lines, from, i).value.len
    decreases i
  {
    if from < i {
      FenceStateIsOpened(lines, from, i - 1);
    }
  }

  /** The line that closes a fence would open one if it were read outside: the two look the same. */
  lemma CloseLooksLikeOpen(lines: seq<string>, from: nat, i: nat)
    requires from <= i < |lines| && FenceBefore(lines, from, i).Some?
    requires FenceAfter(FenceBefore(lines, from, i), lines[i]) == None
    ensures FenceOpen(Trim(lines[i])).Some?
  {
    hide Trim, FenceOpen, IsFenceClose, FenceBefore;
    FenceStateIsOpened(lines, from, i);
    FenceCloseIsPureRun(lines[i], FenceBefore(lines, from, i).value);
    FenceOpenIsMarkerRun(Trim(lines[i]));
  }
}
