// Merging parse outputs: nodes and markers are appended, edges are taken over
// unless an edge with the same key is there already.
module MergeOutputs {
  import opened Basics

  datatype EdgeKey = EdgeKey(src: nat, dst: nat, kind: string)

  // `confidence` is carried along and is no part of the key.
  datatype Edge = Edge(src: nat, dst: nat, kind: string, confidence: Option<nat>)

  function Key(e: Edge): EdgeKey {
    EdgeKey(e.src, e.dst, e.kind)
  }

  function Keys(edges: seq<Edge>): set<EdgeKey> {
    set e | e in edges :: Key(e)
  }

  datatype Output<N, F, W> = Output(nodes: seq<N>, edges: seq<Edge>, ffiMarkers: seq<F>, workspaceDepMarkers: seq<W>)

  /** Whether edge i of `more` is the first with its key, in `edges` and `more` together. */
  predicate IsFirst(edges: seq<Edge>, more: seq<Edge>, i: nat)
    requires i < |more|
  {
    Key(more[i]) !in Keys(edges) && Key(more[i]) !in Keys(more[..i])
  }

  /** Of the first n edges of `more`, those that are first with their key, in order. */
  function Firsts(edges: seq<Edge>, more: seq<Edge>, n: nat): seq<Edge>
    requires n <= |more|
  {
    if n == 0 then []
    else Firsts(edges, more, n - 1) + (if IsFirst(edges, more, n - 1) then [more[n - 1]] else [])
  }

  function MergedEdges(edges: seq<Edge>, more: seq<Edge>): seq<Edge> {
    edges + Firsts(edges, more, |more|)
  }

  function Merged<N, F, W>(a: Output<N, F, W>, b: Output<N, F, W>): Output<N, F, W> {
    Output(a.nodes + b.nodes, MergedEdges(a.edges, b.edges),
           a.ffiMarkers + b.ffiMarkers, a.workspaceDepMarkers + b.workspaceDepMarkers)
  }

  class ParseOutput<N, F, W> {
    var nodes: seq<N>
    var edges: seq<Edge>
    var ffiMarkers: seq<F>
    var workspaceDepMarkers: seq<W>

    function Value(): Output<N, F, W>
      reads this
    {
      Output(nodes, edges, ffiMarkers, workspaceDepMarkers)
    }

    constructor (o: Output<N, F, W>)
      ensures Value() == o
    {
      nodes, edges := o.nodes, o.edges;
      ffiMarkers, workspaceDepMarkers := o.ffiMarkers, o.workspaceDepMarkers;
    }

    method MergeDeduped(other: Output<N, F, W>)
      modifies this
      ensures Value() == Merged(old(Value()), other)
      ensures nodes == old(nodes) + other.nodes
      ensures ffiMarkers == old(ffiMarkers) + other.ffiMarkers
      ensures workspaceDepMarkers == old(workspaceDepMarkers) + other.workspaceDepMarkers
    {
      hide Keys, Firsts;
      nodes := nodes + other.nodes;
      ghost var before := edges;
      var existing := Keys(edges);
      var i := 0;
      NothingMerged(before, other.edges);
      while i < |other.edges|
        invariant 0 <= i <= |other.edges|
        invariant edges == before + Firsts(before, other.edges, i)
        invariant existing == Keys(before) + Keys(other.edges[..i])
        invariant nodes == old(nodes) + other.nodes
        invariant ffiMarkers == old(ffiMarkers) && workspaceDepMarkers == old(workspaceDepMarkers)
      {
        var edge := other.edges[i];
        MergeStep(before, other.edges, i);
        if Key(edge) !in existing {
          existing := existing + {Key(edge)};
          edges := edges + [edge];
        }
        i := i + 1;
      }
      ffiMarkers := ffiMarkers + other.ffiMarkers;
      workspaceDepMarkers := workspaceDepMarkers + other.workspaceDepMarkers;
    }
  }

  lemma NothingMerged(before: seq<Edge>, more: seq<Edge>)
    ensures Keys(more[..0]) == {} && before + Firsts(before, more, 0) == before
  {
  }

  lemma MergeStep(before: seq<Edge>, more: seq<Edge>, i: nat)
    requires i < |more|
    ensures Keys(more[..i + 1]) == Keys(more[..i]) + {Key(more[i])}
    ensures before + Firsts(before, more, i + 1) ==
              if Key(more[i]) in Keys(before) + Keys(more[..i]) then before + Firsts(before, more, i)
              else before + Firsts(before, more, i) + [more[i]]
  {
    hide Keys;
    assert more[..i + 1] == more[..i] + [more[i]];
    KeysJoin(more[..i], [more[i]]);
    KeysOfOne(more[i]);
  }

  lemma KeysJoin(a: seq<Edge>, b: seq<Edge>)
    ensures Keys(a + b) == Keys(a) + Keys(b)
  {
    forall e | e in a || e in b
      ensures e in a + b
    {
    }
  }

  lemma KeysOfOne(e: Edge)
    ensures Keys([e]) == {Key(e)}
  {
    assert e in [e];
  }

  // ----- keys -----

  lemma {:induction false} FirstsKeys(edges: seq<Edge>, more: seq<Edge>, n: nat)
    requires n <= |more|
    ensures Keys(edges) + Keys(Firsts(edges, more, n)) == Keys(edges) + Keys(more[..n])
  {
    hide Keys;
    if 0 < n {
      FirstsKeys(edges, more, n - 1);
      var e := more[n - 1];
      assert more[..n] == more[..n - 1] + [e];
      KeysJoin(more[..n - 1], [e]);
      KeysJoin(Firsts(edges, more, n - 1), [e]);
      KeysOfOne(e);
      assert Firsts(edges, more, n - 1) + [] == Firsts(edges, more, n - 1);
    }
  }

  /** The merged keys are the keys of both. */
  lemma MergedKeys(a: seq<Edge>, b: seq<Edge>)
    ensures Keys(MergedEdges(a, b)) == Keys(a) + Keys(b)
  {
    FirstsKeys(a, b, |b|);
    assert b[..|b|] == b;
    KeysJoin(a, Firsts(a, b, |b|));
  }

  predicate DuplicateFree(edges: seq<Edge>) {
    forall i, j :: 0 <= i < j < |edges| ==> Key(edges[i]) != Key(edges[j])
  }

  lemma {:induction false} FirstsAreNew(edges: seq<Edge>, more: seq<Edge>, n: nat)
    requires n <= |more|
    ensures forall e :: e in Firsts(edges, more, n) ==> Key(e) !in Keys(edges) && Key(e) in Keys(more[..n])
    ensures DuplicateFree(Firsts(edges, more, n))
  {
    if 0 < n {
      FirstsAreNew(edges, more, n - 1);
      var e := more[n - 1];
      assert more[..n] == more[..n - 1] + [e];
      KeysJoin(more[..n - 1], [e]);
      KeysOfOne(e);
      var before := Firsts(edges, more, n - 1);
      assert forall k :: 0 <= k < |before| ==> before[k] in before;
    }
  }

  /** The merged edges are free of duplicates exactly when the receiver's were. */
  lemma DuplicateFreeIffReceiver(a: seq<Edge>, b: seq<Edge>)
    ensures DuplicateFree(MergedEdges(a, b)) <==> DuplicateFree(a)
  {
    hide Keys;
    var added := Firsts(a, b, |b|);
    FirstsAreNew(a, b, |b|);
    if DuplicateFree(a) {
      forall i, j | 0 <= i < |a| && 0 <= j < |added|
        ensures Key(a[i]) != Key(added[j])
      {
        KeyOfMember(a, a[i]);
        assert added[j] in added;
      }
    } else {
      var i, j :| 0 <= i < j < |a| && Key(a[i]) == Key(a[j]);
      assert (a + added)[i] == a[i] && (a + added)[j] == a[j];
    }
  }

  lemma KeyOfMember(edges: seq<Edge>, e: Edge)
    requires e in edges
    ensures Key(e) in Keys(edges)
  {
  }

  /** What is taken over is, for each new key, its first edge; so of each key the first edge of all wins. */
  lemma {:induction false} FirstOccurrenceWins(edges: seq<Edge>, more: seq<Edge>, n: nat, e: Edge)
    requires n <= |more|
    ensures e in Firsts(edges, more, n) <==> exists i :: 0 <= i < n && IsFirst(edges, more, i) && more[i] == e
  {
    hide IsFirst;
    if 0 < n {
      FirstOccurrenceWins(edges, more, n - 1, e);
    }
  }

  /** Source, target and kind are what makes two edges the same. */
  predicate Agree(e: Edge, f: Edge) {
    e.src == f.src && e.dst == f.dst && e.kind == f.kind
  }

  /** An edge is taken over exactly when no edge before it, in either list, agrees with it. */
  lemma FirstMeansNoneAgrees(edges: seq<Edge>, more: seq<Edge>, i: nat)
    requires i < |more|
    ensures IsFirst(edges, more, i) <==>
              (forall e :: e in edges ==> !Agree(e, more[i])) && forall j :: 0 <= j < i ==> !Agree(more[j], more[i])
  {
    if !IsFirst(edges, more, i) && Key(more[i]) in Keys(more[..i]) {
      var e :| e in more[..i] && Key(e) == Key(more[i]);
    }
    forall j | 0 <= j < i && Agree(more[j], more[i])
      ensures !IsFirst(edges, more, i)
    {
      assert more[..i][j] == more[j];
      KeyOfMember(more[..i], more[j]);
    }
  }

  // ----- associativity -----

  lemma {:induction false} FirstsOfPrefix(edges: seq<Edge>, more: seq<Edge>, tail: seq<Edge>, n: nat)
    requires n <= |more|
    ensures Firsts(edges, more + tail, n) == Firsts(edges, more, n)
  {
    if 0 < n {
      FirstsOfPrefix(edges, more, tail, n - 1);
      assert (more + tail)[..n - 1] == more[..n - 1];
    }
  }

  lemma FirstsSnoc(edges: seq<Edge>, more: seq<Edge>, e: Edge)
    ensures MergedEdges(edges, more + [e]) ==
              var before := MergedEdges(edges, more);
              if Key(e) in Keys(before) then before else before + [e]
  {
    hide Keys;
    FirstsOfPrefix(edges, more, [e], |more|);
    MergedKeys(edges, more);
    assert (more + [e])[..|more|] == more;
    assert edges + (Firsts(edges, more, |more|) + [e]) == edges + Firsts(edges, more, |more|) + [e];
    assert Firsts(edges, more, |more|) + [] == Firsts(edges, more, |more|);
  }

  lemma {:induction false} EdgesAssociate(a: seq<Edge>, b: seq<Edge>, c: seq<Edge>)
    ensures MergedEdges(MergedEdges(a, b), c) == MergedEdges(a, MergedEdges(b, c))
    decreases |c|
  {
    hide Keys, MergedEdges;
    if c == [] {
      MergeNothing(b);
      MergeNothing(MergedEdges(a, b));
    } else {
      var rest, e := c[..|c| - 1], c[|c| - 1];
      assert c == rest + [e];
      EdgesAssociate(a, b, rest);
      FirstsSnoc(MergedEdges(a, b), rest, e);
      FirstsSnoc(b, rest, e);
      FirstsSnoc(a, MergedEdges(b, rest), e);
      MergedKeys(MergedEdges(a, b), rest);
      MergedKeys(a, b);
      MergedKeys(b, rest);
      MergedKeys(a, MergedEdges(b, rest));
    }
  }

  lemma MergeNothing(a: seq<Edge>)
    ensures MergedEdges(a, []) == a
  {
  }

  /** Merging is associative on whole outputs. */
  lemma MergeAssociates<N, F, W>(a: Output<N, F, W>, b: Output<N, F, W>, c: Output<N, F, W>)
    ensures Merged(Merged(a, b), c) == Merged(a, Merged(b, c))
  {
    EdgesAssociate(a.edges, b.edges, c.edges);
  }
}
