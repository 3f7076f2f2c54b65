// One node per id: of the nodes that share an id, the widest stays, and of
// equally wide ones the first.
module NodeDedup {
  import opened Basics

  // What the deduplication looks at; `payload` stands for everything else.
  datatype Node = Node(id: nat, line: Option<nat>, endLine: Option<nat>, payload: string)

  /** Lines between start and end, zero when either is unknown. */
  function Width(n: Node): nat {
    if n.endLine.Some? && n.line.Some? then SaturatingSub(n.endLine.value, n.line.value) else 0
  }

  /** Node i is to be preferred to node j. */
  predicate Beats(nodes: seq<Node>, i: nat, j: nat)
    requires i < |nodes| && j < |nodes|
  {
    Width(nodes[j]) < Width(nodes[i]) || (Width(nodes[j]) == Width(nodes[i]) && i <= j)
  }

  /** Node i is the earliest of the widest among the first n nodes with its id. */
  predicate IsBest(nodes: seq<Node>, n: nat, i: nat)
    requires n <= |nodes|
  {
    i < n && forall j :: 0 <= j < n && nodes[j].id == nodes[i].id ==> Beats(nodes, i, j)
  }

  /** The best nodes among the first n, in order. */
  function Survivors(nodes: seq<Node>, n: nat): seq<Node>
    requires n <= |nodes|
  {
    if n == 0 then []
    else Survivors(nodes, n - 1) + (if IsBest(nodes, |nodes|, n - 1) then [nodes[n - 1]] else [])
  }

  /** For each id seen, the index of its best node so far. */
  ghost predicate HoldsBest(nodes: seq<Node>, n: nat, widest: map<nat, nat>)
    requires n <= |nodes|
  {
    && (forall j :: 0 <= j < n ==> nodes[j].id in widest)
    && (forall id :: id in widest ==> IsBest(nodes, n, widest[id]) && nodes[widest[id]].id == id)
  }

  method Dedup(nodes: seq<Node>) returns (kept: seq<Node>)
    ensures kept == Survivors(nodes, |nodes|)
  {
    var widest := FindWidest(nodes);
    kept := [];
    var i := 0;
    while i < |nodes|
      invariant 0 <= i <= |nodes|
      invariant kept == Survivors(nodes, i)
    {
      BestIsHeld(nodes, widest, i);
      if nodes[i].id in widest && widest[nodes[i].id] == i {
        kept := kept + [nodes[i]];
      }
      i := i + 1;
    }
  }

  method FindWidest(nodes: seq<Node>) returns (widest: map<nat, nat>)
    ensures HoldsBest(nodes, |nodes|, widest)
  {
    hide Width;
    widest := map[];
    var i := 0;
    while i < |nodes|
      invariant 0 <= i <= |nodes|
      invariant HoldsBest(nodes, i, widest)
    {
      var id := nodes[i].id;
      if id !in widest {
        widest := widest[id := i];
      }
      if Width(nodes[i]) > Width(nodes[widest[id]]) {
        widest := widest[id := i];
      }
      i := i + 1;
    }
  }

  lemma BestIsHeld(nodes: seq<Node>, widest: map<nat, nat>, i: nat)
    requires i < |nodes| && HoldsBest(nodes, |nodes|, widest)
    ensures IsBest(nodes, |nodes|, i) <==> nodes[i].id in widest && widest[nodes[i].id] == i
  {
    hide Width;
    var w := widest[nodes[i].id];
    if IsBest(nodes, |nodes|, i) {
      assert Beats(nodes, i, w) && Beats(nodes, w, i);
    }
  }

  // ----- what stays -----

  /** A survivor is one of the best nodes, and every best node survives. */
  lemma {:induction false} SurvivorsAreBest(nodes: seq<Node>, n: nat, x: Node)
    requires n <= |nodes|
    ensures x in Survivors(nodes, n) <==> exists i :: 0 <= i < n && IsBest(nodes, |nodes|, i) && nodes[i] == x
  {
    hide IsBest;
    if 0 < n {
      SurvivorsAreBest(nodes, n - 1, x);
    }
  }

  /** Among the nodes with the id of node i one is best. */
  lemma {:induction false} SomeIsBest(nodes: seq<Node>, n: nat, id: nat) returns (b: nat)
    requires n <= |nodes| && exists i :: 0 <= i < n && nodes[i].id == id
    ensures IsBest(nodes, n, b) && nodes[b].id == id
  {
    hide Width;
    if exists i :: 0 <= i < n - 1 && nodes[i].id == id {
      b := SomeIsBest(nodes, n - 1, id);
      if nodes[n - 1].id == id && Width(nodes[b]) < Width(nodes[n - 1]) {
        b := n - 1;
      }
    } else {
      b := n - 1;
    }
  }

  lemma BestIsUnique(nodes: seq<Node>, i: nat, j: nat)
    requires IsBest(nodes, |nodes|, i) && IsBest(nodes, |nodes|, j) && nodes[i].id == nodes[j].id
    ensures i == j
  {
    assert Beats(nodes, i, j) && Beats(nodes, j, i);
  }

  predicate DistinctIds(nodes: seq<Node>) {
    forall i, j :: 0 <= i < j < |nodes| ==> nodes[i].id != nodes[j].id
  }

  lemma {:induction false} SurvivorsAreDistinct(nodes: seq<Node>, n: nat)
    requires n <= |nodes|
    ensures DistinctIds(Survivors(nodes, n))
  {
    hide IsBest;
    if 0 < n {
      SurvivorsAreDistinct(nodes, n - 1);
      if IsBest(nodes, |nodes|, n - 1) {
        var before := Survivors(nodes, n - 1);
        forall k | 0 <= k < |before|
          ensures before[k].id != nodes[n - 1].id
        {
          SurvivorsAreBest(nodes, n - 1, before[k]);
          assert before[k] in before;
          var i :| 0 <= i < n - 1 && IsBest(nodes, |nodes|, i) && nodes[i] == before[k];
          if nodes[i].id == nodes[n - 1].id {
            BestIsUnique(nodes, i, n - 1);
          }
        }
      }
    }
  }

  function Ids(nodes: seq<Node>): set<nat> {
    set n | n in nodes :: n.id
  }

  /** Exactly one node is kept for each id, and no id is lost. */
  lemma OnePerId(nodes: seq<Node>)
    ensures DistinctIds(Survivors(nodes, |nodes|))
    ensures Ids(Survivors(nodes, |nodes|)) == Ids(nodes)
  {
    hide IsBest;
    var kept := Survivors(nodes, |nodes|);
    SurvivorsAreDistinct(nodes, |nodes|);
    forall id
      ensures id in Ids(kept) <==> id in Ids(nodes)
    {
      if id in Ids(nodes) {
        var b := SomeIsBest(nodes, |nodes|, id);
        BestInRange(nodes, b);
        SurvivorsAreBest(nodes, |nodes|, nodes[b]);
        assert nodes[b] in kept;
      }
      if id in Ids(kept) {
        var x :| x in kept && x.id == id;
        SurvivorsAreBest(nodes, |nodes|, x);
      }
    }
  }

  lemma BestInRange(nodes: seq<Node>, b: nat)
    requires IsBest(nodes, |nodes|, b)
    ensures b < |nodes|
  {
  }

  /** Survivors keep their order: they sit at increasing places of the input. */
  lemma {:induction false} OrderIsKept(nodes: seq<Node>, n: nat) returns (places: seq<nat>)
    requires n <= |nodes|
    ensures |places| == |Survivors(nodes, n)|
    ensures forall k :: 0 <= k < |places| ==> places[k] < n && nodes[places[k]] == Survivors(nodes, n)[k]
    ensures forall k, l :: 0 <= k < l < |places| ==> places[k] < places[l]
  {
    hide IsBest;
    places := [];
    if 0 < n {
      places := OrderIsKept(nodes, n - 1);
      if IsBest(nodes, |nodes|, n - 1) {
        places := places + [n - 1];
      }
    }
  }

  lemma {:induction false} DistinctAllSurvive(nodes: seq<Node>, n: nat)
    requires n <= |nodes| && DistinctIds(nodes)
    ensures Survivors(nodes, n) == nodes[..n]
  {
    if 0 < n {
      DistinctAllSurvive(nodes, n - 1);
      assert IsBest(nodes, |nodes|, n - 1);
    }
  }

  /** A second pass changes nothing. */
  lemma DedupIsIdempotent(nodes: seq<Node>)
    ensures var kept := Survivors(nodes, |nodes|); Survivors(kept, |kept|) == kept
  {
    var kept := Survivors(nodes, |nodes|);
    SurvivorsAreDistinct(nodes, |nodes|);
    DistinctAllSurvive(kept, |kept|);
    assert kept[..|kept|] == kept;
  }

  /** Of two nodes with one id the second stays only if its known span has more lines. */
  lemma SecondStaysIfLonger(a: Node, b: Node)
    requires a.id == b.id
    ensures Survivors([a, b], 2) ==
              if && b.line.Some? && b.endLine.Some? && b.line.value < b.endLine.value
                 && (a.line.Some? && a.endLine.Some? ==>
                       a.endLine.value - a.line.value < b.endLine.value - b.line.value)
              then [b] else [a]
  {
    var nodes := [a, b];
    assert nodes[0] == a && nodes[1] == b;
    assert Beats(nodes, 0, 1) <==> Width(b) <= Width(a);
    assert Beats(nodes, 1, 0) <==> Width(a) < Width(b);
    assert Beats(nodes, 0, 0) && Beats(nodes, 1, 1);
    assert Survivors(nodes, 1) == if IsBest(nodes, 2, 0) then [a] else [];
    assert Survivors(nodes, 0) == [];
  }

  /** In terms of lines: a survivor has more than every earlier node with its id, and no fewer than every later one. */
  lemma BestInLines(nodes: seq<Node>, i: nat, j: nat)
    requires i < |nodes| && j < |nodes| && i != j && nodes[i].id == nodes[j].id && IsBest(nodes, |nodes|, i)
    requires nodes[j].line.Some? && nodes[j].endLine.Some? && nodes[j].line.value < nodes[j].endLine.value
    ensures nodes[i].line.Some? && nodes[i].endLine.Some?
    ensures var u, v := nodes[i].endLine.value - nodes[i].line.value, nodes[j].endLine.value - nodes[j].line.value;
            if j < i then v < u else v <= u
  {
    assert Beats(nodes, i, j);
  }
}
