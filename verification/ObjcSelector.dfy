// Rebuilding an Objective-C selector from the siblings that follow the first
// captured keyword of a method.
module ObjcSelector {
  import opened Basics
  import opened Text

  const OPEN_BRACE: Byte := 0x7B

  // A node after the captured keyword.  `text` is absent when its bytes are not UTF-8.
  datatype Sibling = Sibling(kind: string, endByte: nat, text: Option<string>)

  // The captured keyword, with the kind of its parent.
  datatype Captured = Captured(parentKind: Option<string>, endByte: nat, text: Option<string>)

  predicate IsStepOver(s: Sibling) { s.kind == "comment" || s.kind == "ERROR" }

  predicate IsParameter(s: Sibling) { s.kind == "method_parameter" }

  predicate IsIdentifier(s: Sibling) { s.kind == "identifier" }

  /** `source.get(from..to)` exists and holds a `{`. */
  predicate SpanHasBrace(source: seq<Byte>, from: nat, to: nat) {
    from <= to <= |source| && OPEN_BRACE in source[from..to]
  }

  // ----- the specification, on lists -----

  /** Where the span of sibling k begins: at the end of what stands before it. */
  function SpanStart(capEnd: nat, siblings: seq<Sibling>, k: nat): nat
    requires k <= |siblings|
  {
    if k == 0 then capEnd else siblings[k - 1].endByte
  }

  /** The walk ends at sibling k: the body's brace is reached, or a node of another kind. */
  predicate EndsAt(source: seq<Byte>, capEnd: nat, siblings: seq<Sibling>, k: nat)
    requires k < |siblings|
  {
    var s := siblings[k];
    || (s.kind != "comment" && SpanHasBrace(source, SpanStart(capEnd, siblings, k), s.endByte))
    || !(IsStepOver(s) || IsParameter(s) || IsIdentifier(s))
  }

  /** The first place at or after k where the walk ends. */
  function CutFrom(source: seq<Byte>, capEnd: nat, siblings: seq<Sibling>, k: nat): (n: nat)
    requires k <= |siblings|
    ensures k <= n <= |siblings|
    ensures n < |siblings| ==> EndsAt(source, capEnd, siblings, n)
    ensures forall j :: k <= j < n ==> !EndsAt(source, capEnd, siblings, j)
    decreases |siblings| - k
  {
    if k == |siblings| || EndsAt(source, capEnd, siblings, k) then k
    else CutFrom(source, capEnd, siblings, k + 1)
  }

  /** What is left without comments and `ERROR` nodes. */
  function Parts(siblings: seq<Sibling>): seq<Sibling> {
    if siblings == [] then []
    else
      var last := siblings[|siblings| - 1];
      Parts(siblings[..|siblings| - 1]) + (if IsStepOver(last) then [] else [last])
  }

  predicate IdentifiersReadable(siblings: seq<Sibling>) {
    forall k :: 0 <= k < |siblings| && IsIdentifier(siblings[k]) ==> siblings[k].text.Some?
  }

  function TextOf(s: Sibling): string {
    if s.text.Some? then Trim(s.text.value) else ""
  }

  /** The keyword of each parameter: the identifier directly before it, or nothing. */
  function Keywords(parts: seq<Sibling>): seq<string> {
    if parts == [] then []
    else
      var before, last := parts[..|parts| - 1], parts[|parts| - 1];
      Keywords(before) + (if IsParameter(last) then [KeywordAtEnd(before)] else [])
  }

  function KeywordAtEnd(parts: seq<Sibling>): string {
    if parts != [] && IsIdentifier(parts[|parts| - 1]) then TextOf(parts[|parts| - 1]) else ""
  }

  /** Each word followed by a colon. */
  function Coloned(words: seq<string>): string {
    if words == [] then "" else Coloned(words[..|words| - 1]) + words[|words| - 1] + ":"
  }

  /** The siblings before the walk ends. */
  function Kept(source: seq<Byte>, cap: Captured, siblings: seq<Sibling>): seq<Sibling> {
    siblings[..CutFrom(source, cap.endByte, siblings, 0)]
  }

  function SelectorOf(source: seq<Byte>, cap: Captured, sigPrefix: string, siblings: seq<Sibling>): Option<string> {
    if sigPrefix != "fn"
       || (cap.parentKind != Some("method_definition") && cap.parentKind != Some("method_declaration"))
       || cap.text == None || Trim(cap.text.value) == ""
    then None
    else
      var kept := Kept(source, cap, siblings);
      if IdentifiersReadable(kept) then Some(Trim(cap.text.value) + Coloned(Keywords(Parts(kept)))) else None
  }

  // ----- the walk -----

  lemma PartsStep(siblings: seq<Sibling>, k: nat)
    requires k < |siblings|
    ensures Parts(siblings[..k + 1]) ==
              if IsStepOver(siblings[k]) then Parts(siblings[..k]) else Parts(siblings[..k]) + [siblings[k]]
  {
    assert siblings[..k + 1][..k] == siblings[..k];
  }

  lemma KeywordsStep(parts: seq<Sibling>, s: Sibling)
    ensures Keywords(parts + [s]) == if IsParameter(s) then Keywords(parts) + [KeywordAtEnd(parts)] else Keywords(parts)
    ensures Coloned(Keywords(parts) + [KeywordAtEnd(parts)]) == Coloned(Keywords(parts)) + KeywordAtEnd(parts) + ":"
  {
    assert (parts + [s])[..|parts|] == parts;
    var words := Keywords(parts);
    assert (words + [KeywordAtEnd(parts)])[..|words|] == words;
  }

  lemma UnreadableStays(siblings: seq<Sibling>, k: nat, n: nat)
    requires k < n <= |siblings| && IsIdentifier(siblings[k]) && siblings[k].text == None
    ensures !IdentifiersReadable(siblings[..n])
  {
    assert siblings[..n][k] == siblings[k];
  }

  lemma EndsAtMeans(source: seq<Byte>, capEnd: nat, siblings: seq<Sibling>, k: nat)
    requires k < |siblings|
    ensures var s := siblings[k];
            EndsAt(source, capEnd, siblings, k) <==>
              || (s.kind != "comment" && SpanHasBrace(source, SpanStart(capEnd, siblings, k), s.endByte))
              || !(IsStepOver(s) || IsParameter(s) || IsIdentifier(s))
  {
  }

  /** The keyword held back: the identifier at the end of the parts so far. */
  function PendingOf(parts: seq<Sibling>): Option<string> {
    if parts != [] && IsIdentifier(parts[|parts| - 1]) then Some(TextOf(parts[|parts| - 1])) else None
  }

  /** What sibling k adds to the selector, and what it leaves pending. */
  lemma WalkStep(name: string, siblings: seq<Sibling>, k: nat)
    requires k < |siblings|
    ensures var node, parts, next := siblings[k], Parts(siblings[..k]), Parts(siblings[..k + 1]);
            && (IsStepOver(node) ==> next == parts)
            && (IsIdentifier(node) ==> PendingOf(next) == Some(TextOf(node)) && Keywords(next) == Keywords(parts))
            && (IsParameter(node) ==>
                  && PendingOf(next) == None
                  && name + Coloned(Keywords(next)) ==
                       name + Coloned(Keywords(parts))
                       + (if PendingOf(parts).Some? then PendingOf(parts).value else "") + ":")
  {
    hide Trim, Parts, Keywords, Coloned, TextOf;
    PartsStep(siblings, k);
    var parts := Parts(siblings[..k]);
    KeywordsStep(parts, siblings[k]);
    var words := Coloned(Keywords(parts));
    assert name + words + KeywordAtEnd(parts) + ":" == name + (words + KeywordAtEnd(parts) + ":");
  }

  lemma ReadableStep(siblings: seq<Sibling>, k: nat)
    requires k < |siblings|
    ensures IdentifiersReadable(siblings[..k + 1]) <==>
              IdentifiersReadable(siblings[..k]) && (IsIdentifier(siblings[k]) ==> siblings[k].text.Some?)
  {
    assert siblings[..k + 1] == siblings[..k] + [siblings[k]];
  }

  method FullSelector(source: seq<Byte>, cap: Captured, sigPrefix: string, siblings: seq<Sibling>)
    returns (r: Option<string>)
    ensures r == SelectorOf(source, cap, sigPrefix, siblings)
  {
    hide Trim, EndsAt, Parts, Keywords, Coloned, IdentifiersReadable, SpanHasBrace, PendingOf;
    if sigPrefix != "fn" {
      return None;
    }
    if cap.parentKind != Some("method_definition") && cap.parentKind != Some("method_declaration") {
      return None;
    }
    if cap.text == None {
      return None;
    }
    var name := Trim(cap.text.value);
    if name == "" {
      return None;
    }
    var selector := name;
    var pending: Option<string> := None;
    var consumed := cap.endByte;
    var k := 0;
    ghost var cut := CutFrom(source, cap.endByte, siblings, 0);
    NothingWalked(siblings, name);
    while k < |siblings|
      invariant 0 <= k <= cut
      invariant consumed == SpanStart(cap.endByte, siblings, k)
      invariant IdentifiersReadable(siblings[..k])
      invariant pending == PendingOf(Parts(siblings[..k]))
      invariant selector == name + Coloned(Keywords(Parts(siblings[..k])))
    {
      var node := siblings[k];
      EndsAtMeans(source, cap.endByte, siblings, k);
      if node.kind != "comment" && SpanHasBrace(source, consumed, node.endByte) {
        break;
      }
      consumed := node.endByte;
      WalkStep(name, siblings, k);
      ReadableStep(siblings, k);
      if node.kind == "comment" || node.kind == "ERROR" {
      } else if node.kind == "method_parameter" {
        selector := selector + (if pending.Some? then pending.value else "");
        pending := None;
        selector := selector + ":";
      } else if node.kind == "identifier" {
        if node.text == None {
          UnreadableStays(siblings, k, cut);
          return None;
        }
        pending := Some(Trim(node.text.value));
      } else {
        break;
      }
      k := k + 1;
    }
    r := Some(selector);
  }

  lemma NothingWalked(siblings: seq<Sibling>, name: string)
    ensures IdentifiersReadable(siblings[..0]) && PendingOf(Parts(siblings[..0])) == None
    ensures name + Coloned(Keywords(Parts(siblings[..0]))) == name
  {
    assert siblings[..0] == [];
  }

  // ----- what selectors tell -----

  function Count(s: string, c: char): nat {
    if s == "" then 0 else Count(s[..|s| - 1], c) + (if s[|s| - 1] == c then 1 else 0)
  }

  lemma {:induction false} CountJoins(a: string, b: string, c: char)
    ensures Count(a + b, c) == Count(a, c) + Count(b, c)
    decreases |b|
  {
    if b == "" {
      assert a + b == a;
    } else {
      assert (a + b)[..|a + b| - 1] == a + b[..|b| - 1];
      CountJoins(a, b[..|b| - 1], c);
    }
  }

  lemma {:induction false} CountZero(s: string, c: char)
    ensures Count(s, c) == 0 <==> c !in s
  {
    if s != "" {
      CountZero(s[..|s| - 1], c);
      assert s == s[..|s| - 1] + [s[|s| - 1]];
    }
  }

  lemma CountOfColon()
    ensures Count(":", ':') == 1
  {
    assert ":"[..0] == "";
  }

  predicate NoColons(words: seq<string>) {
    forall k :: 0 <= k < |words| ==> ':' !in words[k]
  }

  lemma {:induction false} ColonPerWord(words: seq<string>)
    ensures |words| <= Count(Coloned(words), ':')
    ensures Count(Coloned(words), ':') == |words| <==> NoColons(words)
    decreases |words|
  {
    hide Count;
    if words == [] {
      CountZero("", ':');
    } else {
      var before, last := words[..|words| - 1], words[|words| - 1];
      ColonPerWord(before);
      CountZero(last, ':');
      CountJoins(Coloned(before), last, ':');
      CountJoins(Coloned(before) + last, ":", ':');
      CountOfColon();
      assert words == before + [last];
    }
  }

  function Parameters(parts: seq<Sibling>): seq<Sibling> {
    if parts == [] then []
    else
      var last := parts[|parts| - 1];
      Parameters(parts[..|parts| - 1]) + (if IsParameter(last) then [last] else [])
  }

  /** What the last sibling adds. */
  lemma LastSibling(siblings: seq<Sibling>)
    requires siblings != []
    ensures var before, last := siblings[..|siblings| - 1], siblings[|siblings| - 1];
            && Keywords(Parts(siblings)) ==
                 Keywords(Parts(before)) + (if IsParameter(last) then [KeywordAtEnd(Parts(before))] else [])
            && KeywordAtEnd(Parts(siblings)) ==
                 (if IsStepOver(last) then KeywordAtEnd(Parts(before))
                  else if IsIdentifier(last) then TextOf(last)
                  else "")
  {
    hide Keywords, TextOf;
    var before, last := siblings[..|siblings| - 1], siblings[|siblings| - 1];
    KeywordsStep(Parts(before), last);
    if IsStepOver(last) {
      assert Parts(siblings) == Parts(before);
      assert Keywords(Parts(before)) + [] == Keywords(Parts(before));
    } else {
      assert Parts(siblings) == Parts(before) + [last];
      if !IsParameter(last) {
        assert Keywords(Parts(before)) + [] == Keywords(Parts(before));
      }
    }
  }

  lemma NoSiblings()
    ensures Parts([]) == [] && Keywords([]) == [] && KeywordAtEnd([]) == "" && Parameters([]) == []
  {
  }

  lemma {:induction false} KeywordPerParameter(siblings: seq<Sibling>)
    ensures |Keywords(Parts(siblings))| == |Parameters(siblings)|
    decreases |siblings|
  {
    hide Keywords, Parts, KeywordAtEnd;
    if siblings == [] {
      NoSiblings();
    } else {
      KeywordPerParameter(siblings[..|siblings| - 1]);
      LastSibling(siblings);
    }
  }

  // A method: its source, its captured keyword and the siblings after that.
  datatype Method = Method(source: seq<Byte>, cap: Captured, siblings: seq<Sibling>) {
    function Selector(): Option<string> { SelectorOf(source, cap, "fn", siblings) }

    function Name(): string { if cap.text.Some? then Trim(cap.text.value) else "" }

    function KeptSiblings(): seq<Sibling> { Kept(source, cap, siblings) }

    function KeptKeywords(): seq<string> { Keywords(Parts(KeptSiblings())) }

    /** Neither the captured keyword nor an identifier after it contains a colon, as none does in the language. */
    predicate ColonFree() {
      ':' !in Name() && forall k :: 0 <= k < |siblings| && IsIdentifier(siblings[k]) ==> ':' !in TextOf(siblings[k])
    }

    /** Once comments are dropped, a parameter follows the captured keyword directly. */
    predicate StartsWithParameter() {
      var parts := Parts(KeptSiblings());
      parts != [] && IsParameter(parts[0])
    }
  }

  lemma SelectorForm(m: Method)
    requires m.Selector().Some?
    ensures m.Selector().value == m.Name() + Coloned(m.KeptKeywords())
  {
    hide Kept, Keywords, Coloned, Parts, IdentifiersReadable, Trim;
  }

  lemma {:induction false} KeywordsAreColonFree(siblings: seq<Sibling>)
    requires forall k :: 0 <= k < |siblings| && IsIdentifier(siblings[k]) ==> ':' !in TextOf(siblings[k])
    ensures NoColons(Keywords(Parts(siblings))) && ':' !in KeywordAtEnd(Parts(siblings))
    decreases |siblings|
  {
    hide TextOf, Keywords, Parts, KeywordAtEnd;
    if siblings == [] {
      NoSiblings();
    } else {
      KeywordsAreColonFree(siblings[..|siblings| - 1]);
      LastSibling(siblings);
    }
  }

  lemma MethodIsColonFree(m: Method)
    requires m.ColonFree()
    ensures NoColons(m.KeptKeywords())
  {
    hide Keywords, Parts, TextOf, NoColons;
    KeywordsAreColonFree(m.KeptSiblings());
  }

  /**
   * A selector has at least as many colons as parameters are kept, and exactly
   * as many when none is part of a keyword.
   */
  lemma ColonsEqualParameters(m: Method)
    requires m.Selector().Some?
    ensures Count(m.Selector().value, ':') == |Parameters(m.KeptSiblings())| <==>
              ':' !in m.Name() && NoColons(m.KeptKeywords())
    ensures m.ColonFree() ==> Count(m.Selector().value, ':') == |Parameters(m.KeptSiblings())|
  {
    hide Keywords, Parts, Coloned, Count, Kept, NoColons, Parameters, SelectorOf;
    SelectorForm(m);
    var words := m.KeptKeywords();
    ColonPerWord(words);
    KeywordPerParameter(m.KeptSiblings());
    CountZero(m.Name(), ':');
    CountJoins(m.Name(), Coloned(words), ':');
    if m.ColonFree() {
      MethodIsColonFree(m);
    }
  }

  // ----- how a selector is spelled -----

  /**
   * One parameter with what stands before it: identifiers that are no part of
   * the name, the keyword if there is one, and nodes that are stepped over.
   */
  datatype Group = Group(before: seq<Sibling>, keyword: Option<Sibling>, between: seq<Sibling>, parameter: Sibling)

  predicate IsGroup(g: Group) {
    && g.parameter.kind == "method_parameter"
    && (forall k :: 0 <= k < |g.between| ==> g.between[k].kind in {"comment", "ERROR"})
    && match g.keyword
       case Some(w) =>
         w.kind == "identifier" && forall k :: 0 <= k < |g.before| ==> g.before[k].kind != "method_parameter"
       case None => forall k :: 0 <= k < |g.before| ==> g.before[k].kind in {"comment", "ERROR"}
  }

  predicate AllGroups(groups: seq<Group>) {
    forall k :: 0 <= k < |groups| ==> IsGroup(groups[k])
  }

  /** The siblings of all groups, in order. */
  function Flat(groups: seq<Group>): seq<Sibling> {
    if groups == [] then []
    else
      var g := groups[|groups| - 1];
      Flat(groups[..|groups| - 1]) + g.before + (if g.keyword.Some? then [g.keyword.value] else []) + g.between
      + [g.parameter]
  }

  /** The text of each keyword, trimmed, with a colon after it; a colon alone where there is none. */
  function Spelled(groups: seq<Group>): string {
    if groups == [] then ""
    else
      var g := groups[|groups| - 1];
      Spelled(groups[..|groups| - 1])
      + (if g.keyword.Some? && g.keyword.value.text.Some? then Trim(g.keyword.value.text.value) else "") + ":"
  }

  lemma {:induction false} PartsJoin(a: seq<Sibling>, b: seq<Sibling>)
    ensures Parts(a + b) == Parts(a) + Parts(b)
    decreases |b|
  {
    if b == [] {
      assert a + b == a;
      assert Parts(a) + [] == Parts(a);
    } else {
      assert (a + b)[..|a + b| - 1] == a + b[..|b| - 1];
      PartsJoin(a, b[..|b| - 1]);
    }
  }

  lemma {:induction false} NoPartsLeft(siblings: seq<Sibling>)
    requires forall k :: 0 <= k < |siblings| ==> IsStepOver(siblings[k])
    ensures Parts(siblings) == []
  {
    if siblings != [] {
      NoPartsLeft(siblings[..|siblings| - 1]);
    }
  }

  /** One more group: one more keyword. */
  lemma GroupAdds(siblings: seq<Sibling>, g: Group)
    requires IsGroup(g) && KeywordAtEnd(Parts(siblings)) == ""
    ensures var keyword := if g.keyword.Some? then [g.keyword.value] else [];
            var all := siblings + g.before + keyword + g.between + [g.parameter];
            && Keywords(Parts(all)) ==
                 Keywords(Parts(siblings)) + [if g.keyword.Some? then TextOf(g.keyword.value) else ""]
            && KeywordAtEnd(Parts(all)) == ""
  {
    hide Parts, Keywords, KeywordAtEnd, TextOf, Trim;
    var a := siblings + g.before;
    var b := a + (if g.keyword.Some? then [g.keyword.value] else []);
    var c := b + g.between;
    var all := c + [g.parameter];
    PartsJoin(siblings, g.before);
    PartsJoin(b, g.between);
    NoPartsLeft(g.between);
    assert Parts(b) + [] == Parts(b);
    LastSibling(all);
    assert all[..|all| - 1] == c;
    if g.keyword.Some? {
      TrailingKeywordsVanish(a, |siblings|);
      assert a[..|siblings|] == siblings;
      LastSibling(b);
      assert b[..|b| - 1] == a;
      assert Keywords(Parts(a)) + [] == Keywords(Parts(a));
    } else {
      NoPartsLeft(g.before);
      assert b == a && Parts(siblings) + [] == Parts(siblings);
    }
  }

  lemma {:induction false} FlatSpells(groups: seq<Group>)
    requires AllGroups(groups)
    ensures Coloned(Keywords(Parts(Flat(groups)))) == Spelled(groups)
    ensures KeywordAtEnd(Parts(Flat(groups))) == ""
    decreases |groups|
  {
    hide Parts, Keywords, KeywordAtEnd, IsGroup, Trim;
    if groups == [] {
      NoSiblings();
    } else {
      var before, g := groups[..|groups| - 1], groups[|groups| - 1];
      FlatSpells(before);
      GroupAdds(Flat(before), g);
      var words, w := Keywords(Parts(Flat(before))), if g.keyword.Some? then TextOf(g.keyword.value) else "";
      assert (words + [w])[..|words|] == words;
    }
  }

  /**
   * The selector is spelled out by the groups that are kept: the captured
   * keyword, then the text of the keyword before each parameter, each with its
   * colon.  What trails is no part of it.
   */
  lemma SelectorIsSpelled(source: seq<Byte>, cap: Captured, siblings: seq<Sibling>, groups: seq<Group>,
        trailing: seq<Sibling>)
    requires cap.parentKind == Some("method_definition") || cap.parentKind == Some("method_declaration")
    requires cap.text.Some? && Trim(cap.text.value) != ""
    requires Kept(source, cap, siblings) == Flat(groups) + trailing && AllGroups(groups)
    requires forall k :: 0 <= k < |trailing| ==> !IsParameter(trailing[k])
    requires IdentifiersReadable(Kept(source, cap, siblings))
    ensures SelectorOf(source, cap, "fn", siblings) == Some(Trim(cap.text.value) + Spelled(groups))
  {
    hide Parts, Keywords, KeywordAtEnd, Trim, Kept, Coloned, Spelled, Flat, IdentifiersReadable;
    FlatSpells(groups);
    var kept := Flat(groups) + trailing;
    TrailingKeywordsVanish(kept, |Flat(groups)|);
    assert kept[..|Flat(groups)|] == Flat(groups);
  }

  /** Any siblings can be read as groups and what trails, so every selector is spelled like that. */
  lemma {:induction false} GroupsOf(siblings: seq<Sibling>) returns (groups: seq<Group>, trailing: seq<Sibling>)
    requires forall k :: 0 <= k < |siblings| ==>
               IsStepOver(siblings[k]) || IsIdentifier(siblings[k]) || IsParameter(siblings[k])
    ensures siblings == Flat(groups) + trailing && AllGroups(groups)
    ensures forall k :: 0 <= k < |trailing| ==> !IsParameter(trailing[k])
    decreases |siblings|
  {
    hide IsIdentifier, IsStepOver, IsParameter, Flat, IsGroup;
    if siblings == [] {
      groups, trailing := [], [];
      NoGroups();
    } else {
      var last := siblings[|siblings| - 1];
      groups, trailing := GroupsOf(siblings[..|siblings| - 1]);
      if IsParameter(last) {
        assert forall k :: 0 <= k < |trailing| ==> trailing[k] == siblings[|Flat(groups)| + k];
        var g := GroupOf(trailing, last);
        OneMoreGroup(groups, g);
        assert siblings == siblings[..|siblings| - 1] + [last];
        groups, trailing := groups + [g], [];
        assert Flat(groups) + [] == Flat(groups);
      } else {
        trailing := trailing + [last];
        assert siblings == Flat(groups) + trailing;
      }
    }
  }

  lemma NoGroups()
    ensures Flat([]) + [] == []
  {
  }

  lemma OneMoreGroup(groups: seq<Group>, g: Group)
    ensures Flat(groups + [g]) ==
              Flat(groups) + (g.before + (if g.keyword.Some? then [g.keyword.value] else []) + g.between)
              + [g.parameter]
  {
    assert (groups + [g])[..|groups|] == groups;
  }

  lemma {:induction false} GroupOf(siblings: seq<Sibling>, parameter: Sibling) returns (g: Group)
    requires IsParameter(parameter) && forall k :: 0 <= k < |siblings| ==> !IsParameter(siblings[k])
    requires forall k :: 0 <= k < |siblings| ==> IsStepOver(siblings[k]) || IsIdentifier(siblings[k])
    ensures IsGroup(g) && g.parameter == parameter && (g.keyword == None ==> g.between == [])
    ensures siblings == g.before + (if g.keyword.Some? then [g.keyword.value] else []) + g.between
    decreases |siblings|
  {
    if siblings == [] {
      g := Group([], None, [], parameter);
    } else {
      var before, last := siblings[..|siblings| - 1], siblings[|siblings| - 1];
      if IsIdentifier(last) {
        g := Group(before, Some(last), [], parameter);
      } else {
        g := GroupOf(before, parameter);
        if g.keyword.Some? {
          assert siblings == g.before + [g.keyword.value] + (g.between + [last]);
          g := g.(between := g.between + [last]);
        } else {
          assert siblings == (g.before + [last]) + [] + [];
          g := g.(before := g.before + [last]);
        }
      }
    }
  }

  /**
   * The walk goes on past a node that is a comment; or an `ERROR`, a parameter or
   * an identifier with no `{` in the source from where the one before it ended.
   */
  predicate GoesOnPast(source: seq<Byte>, from: nat, node: Sibling) {
    || node.kind == "comment"
    || ((node.kind == "ERROR" || node.kind == "method_parameter" || node.kind == "identifier")
        && (from <= node.endByte <= |source| ==> forall q :: from <= q < node.endByte ==> source[q] != 0x7B))
  }

  /** What is kept is the longest run of siblings that the walk goes on past. */
  lemma KeptExactly(source: seq<Byte>, cap: Captured, siblings: seq<Sibling>)
    ensures var n := |Kept(source, cap, siblings)|;
            && Kept(source, cap, siblings) == siblings[..n]
            && (forall k :: 0 <= k < n ==>
                  GoesOnPast(source, if k == 0 then cap.endByte else siblings[k - 1].endByte, siblings[k]))
            && (n < |siblings| ==>
                  !GoesOnPast(source, if n == 0 then cap.endByte else siblings[n - 1].endByte, siblings[n]))
  {
    hide GoesOnPast, EndsAt;
    forall k: nat | k < |siblings|
      ensures EndsAt(source, cap.endByte, siblings, k) <==>
                !GoesOnPast(source, if k == 0 then cap.endByte else siblings[k - 1].endByte, siblings[k])
    {
      EndsWhere(source, cap.endByte, siblings, k);
    }
    var cut := CutFrom(source, cap.endByte, siblings, 0);
    assert |Kept(source, cap, siblings)| == cut;
    if cut < |siblings| {
      EndsWhere(source, cap.endByte, siblings, cut);
    }
  }

  lemma EndsWhere(source: seq<Byte>, capEnd: nat, siblings: seq<Sibling>, k: nat)
    requires k < |siblings|
    ensures EndsAt(source, capEnd, siblings, k) <==>
              !GoesOnPast(source, if k == 0 then capEnd else siblings[k - 1].endByte, siblings[k])
  {
    var from, to := SpanStart(capEnd, siblings, k), siblings[k].endByte;
    if from <= to <= |source| {
      assert forall q :: from <= q < to ==> source[q] == source[from..to][q - from];
    }
  }

  /** There is no selector exactly when something is not there that it needs. */
  lemma NoSelectorExactlyWhen(source: seq<Byte>, cap: Captured, sigPrefix: string, siblings: seq<Sibling>)
    ensures SelectorOf(source, cap, sigPrefix, siblings) == None <==>
              || sigPrefix != "fn"
              || !(cap.parentKind == Some("method_definition") || cap.parentKind == Some("method_declaration"))
              || cap.text == None || AllWhitespace(cap.text.value)
              || exists s :: s in Kept(source, cap, siblings) && s.kind == "identifier" && s.text == None
  {
    hide Trim, Kept, Parts, Keywords, Coloned;
    if cap.text.Some? {
      TrimsToNothing(cap.text.value);
    }
    var kept := Kept(source, cap, siblings);
    if !IdentifiersReadable(kept) {
      var k :| 0 <= k < |kept| && IsIdentifier(kept[k]) && !kept[k].text.Some?;
      assert kept[k] in kept;
    }
  }

  // ----- trailing macros -----

  lemma {:induction false} TrailingKeywordsVanish(siblings: seq<Sibling>, n: nat)
    requires n <= |siblings| && forall k :: n <= k < |siblings| ==> !IsParameter(siblings[k])
    ensures Keywords(Parts(siblings)) == Keywords(Parts(siblings[..n]))
    decreases |siblings|
  {
    hide Keywords, Parts, KeywordAtEnd;
    if n == |siblings| {
      assert siblings[..n] == siblings;
    } else {
      var before := siblings[..|siblings| - 1];
      TrailingKeywordsVanish(before, n);
      assert before[..n] == siblings[..n];
      LastSibling(siblings);
    }
  }

  /** Up to where it would end, the walk does not look further ahead. */
  lemma {:induction false} CutOfPrefix(source: seq<Byte>, capEnd: nat, siblings: seq<Sibling>, n: nat, k: nat)
    requires k <= n <= |siblings| && n <= CutFrom(source, capEnd, siblings, k)
    ensures CutFrom(source, capEnd, siblings[..n], k) == n
    decreases n - k
  {
    hide SpanHasBrace;
    if k < n {
      assert EndsAt(source, capEnd, siblings[..n], k) == EndsAt(source, capEnd, siblings, k);
      CutOfPrefix(source, capEnd, siblings, n, k + 1);
    }
  }

  /**
   * Where no parameter follows before the walk ends, what follows leaves no
   * trace: with the trailing siblings, such as macros, and without them the
   * selector is the same, as long as their text can be read.
   */
  lemma TrailingSiblingsVanish(source: seq<Byte>, cap: Captured, sigPrefix: string, siblings: seq<Sibling>, n: nat)
    requires n <= |Kept(source, cap, siblings)|
    requires forall k :: n <= k < |Kept(source, cap, siblings)| ==> !IsParameter(siblings[k])
    ensures SelectorOf(source, cap, sigPrefix, siblings) ==
              if IdentifiersReadable(siblings[n..|Kept(source, cap, siblings)|])
              then SelectorOf(source, cap, sigPrefix, siblings[..n])
              else None
  {
    hide Keywords, Parts, Coloned, CutFrom, Trim;
    var kept := Kept(source, cap, siblings);
    CutOfPrefix(source, cap.endByte, siblings, n, 0);
    assert siblings[..n][..n] == siblings[..n] == kept[..n];
    TrailingKeywordsVanish(kept, n);
    var rest := siblings[n..|kept|];
    assert forall k :: 0 <= k < |rest| ==> rest[k] == kept[n + k];
    assert forall k :: n <= k < |kept| ==> kept[k] == rest[k - n];
  }

  // ----- when two methods are named alike -----

  lemma {:induction false} ColonedCons(word: string, words: seq<string>)
    ensures Coloned([word] + words) == word + ":" + Coloned(words)
    decreases |words|
  {
    var all := [word] + words;
    if words == [] {
      assert all[..0] == [];
      assert word + ":" + "" == word + ":";
      assert "" + word == word;
    } else {
      assert all[..|all| - 1] == [word] + words[..|words| - 1];
      ColonedCons(word, words[..|words| - 1]);
    }
  }

  /** A list of colon-free words can be read back from its coloned form. */
  lemma {:induction false} ColonedInjective(a: seq<string>, b: seq<string>)
    requires NoColons(a) && NoColons(b)
    requires Coloned(a) == Coloned(b)
    ensures a == b
    decreases |a|
  {
    if a == [] || b == [] {
    } else {
      ColonedCons(a[0], a[1..]);
      ColonedCons(b[0], b[1..]);
      assert a == [a[0]] + a[1..] && b == [b[0]] + b[1..];
      var u, v := ":" + Coloned(a[1..]), ":" + Coloned(b[1..]);
      assert a[0] + u == Coloned(a) && b[0] + v == Coloned(b);
      CutAtMark(':', a[0], u, b[0], v);
      assert u[1..] == Coloned(a[1..]) && v[1..] == Coloned(b[1..]);
      ColonedInjective(a[1..], b[1..]);
    }
  }

  /** The words of a selector: the first keyword is glued to the captured one. */
  function Words(name: string, keywords: seq<string>): seq<string> {
    if keywords == [] then [] else [name + keywords[0]] + keywords[1..]
  }

  lemma WordsForm(name: string, keywords: seq<string>)
    requires ':' !in name && NoColons(keywords)
    ensures NoColons(Words(name, keywords))
    ensures name + Coloned(keywords) == if keywords == [] then name else Coloned(Words(name, keywords))
    ensures ':' in name + Coloned(keywords) <==> keywords != []
  {
    if keywords == [] {
      assert name + "" == name;
    } else {
      var first, rest := keywords[0], keywords[1..];
      assert keywords == [first] + rest;
      ColonedCons(first, rest);
      ColonedCons(name + first, rest);
      assert name + (first + ":" + Coloned(rest)) == name + first + ":" + Coloned(rest);
      assert (name + first + ":" + Coloned(rest))[|name + first|] == ':';
    }
  }

  /**
   * Two methods are named alike exactly when neither takes a parameter and
   * their captured keywords match, or all their words do.
   */
  lemma AlikeExactlyWhen(a: Method, b: Method)
    requires a.Selector().Some? && b.Selector().Some? && a.ColonFree() && b.ColonFree()
    ensures a.Selector() == b.Selector() <==>
              && Words(a.Name(), a.KeptKeywords()) == Words(b.Name(), b.KeptKeywords())
              && (a.KeptKeywords() == [] ==> a.Name() == b.Name())
  {
    hide SelectorOf, Keywords, Parts, Coloned, Kept, Trim;
    SelectorForm(a);
    SelectorForm(b);
    MethodIsColonFree(a);
    MethodIsColonFree(b);
    WordsForm(a.Name(), a.KeptKeywords());
    WordsForm(b.Name(), b.KeptKeywords());
    if a.Selector() == b.Selector() && a.KeptKeywords() != [] {
      ColonedInjective(Words(a.Name(), a.KeptKeywords()), Words(b.Name(), b.KeptKeywords()));
    }
  }

  lemma {:induction false} FirstKeyword(parts: seq<Sibling>)
    requires parts != [] && IsParameter(parts[0])
    ensures Keywords(parts) != [] && Keywords(parts)[0] == ""
    decreases |parts|
  {
    if 1 < |parts| {
      FirstKeyword(parts[..|parts| - 1]);
    } else {
      assert parts[..0] == [];
    }
  }

  /**
   * When a parameter directly follows the captured keyword, two methods are
   * named alike only if all their keywords match, one by one.
   */
  lemma AlikeOnlyIfKeywordsMatch(a: Method, b: Method)
    requires a.Selector().Some? && b.Selector().Some? && a.ColonFree() && b.ColonFree()
    requires a.StartsWithParameter() && b.StartsWithParameter()
    ensures a.Selector() == b.Selector() <==> a.Name() == b.Name() && a.KeptKeywords() == b.KeptKeywords()
  {
    hide SelectorOf, Keywords, Parts, Coloned, Kept, Trim;
    AlikeExactlyWhen(a, b);
    FirstKeyword(Parts(a.KeptSiblings()));
    FirstKeyword(Parts(b.KeptSiblings()));
    var u, v := a.KeptKeywords(), b.KeptKeywords();
    assert a.Name() + "" == a.Name() && b.Name() + "" == b.Name();
    assert u == [""] + u[1..] && v == [""] + v[1..];
    assert Words(a.Name(), u)[0] == a.Name() && Words(b.Name(), v)[0] == b.Name();
    assert Words(a.Name(), u)[1..] == u[1..] && Words(b.Name(), v)[1..] == v[1..];
  }
}
