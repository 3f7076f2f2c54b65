// "Nearest binding, fail closed": the choice every receiver resolver makes.
// Candidates are offered one by one; one is taken over the best so far only if
// it starts strictly later.
module NearestBinding {
  import opened Basics
  import opened SyntaxTree

  datatype Binding<T> = Binding(start: nat, what: T)

  /** The update of the best-so-far. */
  function Better<T>(best: Option<Binding<T>>, candidate: Binding<T>): Option<Binding<T>> {
    if best == None || best.value.start < candidate.start then Some(candidate) else best
  }

  function NearestFrom<T>(best: Option<Binding<T>>, candidates: seq<Binding<T>>): Option<Binding<T>> {
    if candidates == [] then best
    else Better(NearestFrom(best, candidates[..|candidates| - 1]), candidates[|candidates| - 1])
  }

  function Nearest<T>(candidates: seq<Binding<T>>): Option<Binding<T>> {
    NearestFrom(None, candidates)
  }

  lemma {:induction false} NearestJoins<T>(best: Option<Binding<T>>, a: seq<Binding<T>>, b: seq<Binding<T>>)
    ensures NearestFrom(best, a + b) == NearestFrom(NearestFrom(best, a), b)
    decreases |b|
  {
    if b == [] {
      assert a + b == a;
    } else {
      assert (a + b)[..|a + b| - 1] == a + b[..|b| - 1];
      NearestJoins(best, a, b[..|b| - 1]);
    }
  }

  /** Candidate k starts last; among those that start with it, it comes first. */
  predicate IsNearest<T>(candidates: seq<Binding<T>>, k: nat) {
    && k < |candidates|
    && (forall j :: 0 <= j < |candidates| ==> candidates[j].start <= candidates[k].start)
    && (forall j :: 0 <= j < k ==> candidates[j].start < candidates[k].start)
  }

  /** The fold takes exactly the nearest candidate. */
  lemma {:induction false} NearestIsNearest<T>(candidates: seq<Binding<T>>) returns (k: nat)
    ensures candidates == [] ==> Nearest(candidates) == None
    ensures candidates != [] ==> IsNearest(candidates, k) && Nearest(candidates) == Some(candidates[k])
    ensures forall j: nat :: IsNearest(candidates, j) ==> j == k
    decreases |candidates|
  {
    k := 0;
    if candidates != [] {
      var n := |candidates| - 1;
      var before := candidates[..n];
      k := NearestIsNearest(before);
      assert forall j :: 0 <= j < n ==> before[j] == candidates[j];
      if n == 0 || candidates[k].start < candidates[n].start {
        k := n;
      }
      assert IsNearest(candidates, k);
    }
  }

  /** A candidate that starts after all others is taken. */
  lemma LastIsTaken<T>(candidates: seq<Binding<T>>, b: Binding<T>)
    requires b in candidates && forall c :: c in candidates ==> c == b || c.start < b.start
    ensures Nearest(candidates) == Some(b)
  {
    var k := NearestIsNearest(candidates);
    assert candidates[k] in candidates;
    var j :| 0 <= j < |candidates| && candidates[j] == b;
    assert candidates[j].start <= candidates[k].start;
  }

  /** What is taken is a candidate, and none starts later. */
  lemma TakenIsLast<T>(candidates: seq<Binding<T>>)
    ensures Nearest(candidates) == None <==> candidates == []
    ensures candidates != [] ==>
              && Nearest(candidates).value in candidates
              && forall c :: c in candidates ==> c.start <= Nearest(candidates).value.start
  {
    var k := NearestIsNearest(candidates);
  }

  // ----- collecting candidates from nodes -----

  /** The candidates that a list of nodes offers, in order. */
  function Collect<T>(nodes: seq<Node>, offer: Node -> Option<Binding<T>>): seq<Binding<T>> {
    if nodes == [] then []
    else
      var last := offer(nodes[|nodes| - 1]);
      Collect(nodes[..|nodes| - 1], offer) + (if last.Some? then [last.value] else [])
  }

  lemma {:induction false} CollectJoins<T>(a: seq<Node>, b: seq<Node>, offer: Node -> Option<Binding<T>>)
    ensures Collect(a + b, offer) == Collect(a, offer) + Collect(b, offer)
    decreases |b|
  {
    if b == [] {
      assert a + b == a;
    } else {
      assert (a + b)[..|a + b| - 1] == a + b[..|b| - 1];
      CollectJoins(a, b[..|b| - 1], offer);
    }
  }

  lemma {:induction false} CollectIsExact<T>(nodes: seq<Node>, offer: Node -> Option<Binding<T>>, b: Binding<T>)
    ensures b in Collect(nodes, offer) <==> exists n :: n in nodes && offer(n) == Some(b)
    decreases |nodes|
  {
    if nodes != [] {
      var before, last := nodes[..|nodes| - 1], nodes[|nodes| - 1];
      CollectIsExact(before, offer, b);
      assert nodes == before + [last];
    }
  }

  /** One more child of a node: its visible nodes are offered after those of the children before it. */
  lemma NextChild<T>(best: Option<Binding<T>>, node: Node, closed: set<string>, n: nat,
        offer: Node -> Option<Binding<T>>)
    requires n < |node.children|
    ensures NearestFrom(best, Collect(VisibleChildren(node, closed, n + 1), offer))
         == NearestFrom(NearestFrom(best, Collect(VisibleChildren(node, closed, n), offer)),
                        Collect(Visible(node.children[n].node, closed), offer))
  {
    var a, b := VisibleChildren(node, closed, n), Visible(node.children[n].node, closed);
    CollectJoins(a, b, offer);
    NearestJoins(best, Collect(a, offer), Collect(b, offer));
  }

  /** The node itself is offered first. */
  lemma NodeFirst<T>(best: Option<Binding<T>>, node: Node, closed: set<string>, offer: Node -> Option<Binding<T>>)
    ensures NearestFrom(best, Collect(Visible(node, closed), offer))
         == NearestFrom(Offered(best, offer(node)),
                        Collect(if node.kind in closed then [] else VisibleChildren(node, closed, |node.children|),
                                offer))
  {
    var rest := if node.kind in closed then [] else VisibleChildren(node, closed, |node.children|);
    CollectJoins([node], rest, offer);
    assert [node][..0] == [];
    NearestJoins(best, Collect([node], offer), Collect(rest, offer));
  }

  /** One more node of a list. */
  lemma NextNode<T>(best: Option<Binding<T>>, nodes: seq<Node>, i: nat, offer: Node -> Option<Binding<T>>)
    requires i < |nodes|
    ensures NearestFrom(best, Collect(nodes[..i + 1], offer))
         == Offered(NearestFrom(best, Collect(nodes[..i], offer)), offer(nodes[i]))
  {
    assert nodes[..i + 1][..i] == nodes[..i];
    var before := Collect(nodes[..i], offer);
    if offer(nodes[i]).Some? {
      var b := offer(nodes[i]).value;
      assert (before + [b])[..|before|] == before;
    } else {
      assert before + [] == before;
    }
  }

  lemma EmptyOffers<T>()
    ensures forall best: Option<Binding<T>> :: NearestFrom(best, []) == best
  {
  }

  lemma NothingOffered<T>(best: Option<Binding<T>>, node: Node, closed: set<string>, offer: Node -> Option<Binding<T>>)
    ensures NearestFrom(best, Collect([], offer)) == best
    ensures NearestFrom(best, Collect(VisibleChildren(node, closed, 0), offer)) == best
  {
  }

  function Offered<T>(best: Option<Binding<T>>, candidate: Option<Binding<T>>): Option<Binding<T>> {
    if candidate.Some? then Better(best, candidate.value) else best
  }

  /** The best-so-far loop over the children of a node. */
  method NearestChild<T>(parent: Node, offer: Node -> Option<Binding<T>>) returns (best: Option<Binding<T>>)
    ensures best == Nearest(Collect(ChildNodes(parent), offer))
  {
    hide Collect, NearestFrom;
    ghost var nodes := ChildNodes(parent);
    best := None;
    NothingOffered(best, parent, {}, offer);
    assert nodes[..0] == [];
    var i := 0;
    while i < |parent.children|
      invariant 0 <= i <= |parent.children|
      invariant best == NearestFrom(None, Collect(nodes[..i], offer))
    {
      NextNode(None, nodes, i, offer);
      var candidate := offer(parent.children[i].node);
      if candidate.Some? && (best == None || candidate.value.start > best.value.start) {
        best := candidate;
      }
      i := i + 1;
    }
    assert nodes[..i] == nodes;
  }

  // ----- what the resolvers return -----

  /** The type a resolver that carries optional types settles on. */
  function TypeOf(best: Option<Binding<Option<string>>>): Option<string> {
    if best.Some? then best.value.what else None
  }

  /** Never stale: a type is returned only if the nearest candidate itself has it. */
  lemma TypeIsNearest(candidates: seq<Binding<Option<string>>>, t: string)
    ensures TypeOf(Nearest(candidates)) == Some(t) <==>
              exists k: nat :: IsNearest(candidates, k) && candidates[k].what == Some(t)
  {
    var k := NearestIsNearest(candidates);
  }

  /** Fail closed: if an untyped candidate starts after every typed one, there is no type. */
  lemma UntypedRebindingWins(candidates: seq<Binding<Option<string>>>, u: nat)
    requires u < |candidates| && candidates[u].what == None
    requires forall j :: 0 <= j < |candidates| && candidates[j].what.Some? ==> candidates[j].start < candidates[u].start
    ensures TypeOf(Nearest(candidates)) == None
  {
    var k := NearestIsNearest(candidates);
    assert candidates[u].start <= candidates[k].start;
  }
}
