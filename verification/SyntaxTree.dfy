// The part of a concrete syntax tree the receiver resolvers look at.
module SyntaxTree {
  import opened Basics

  // `text` is absent when the source bytes of the node are not UTF-8.
  datatype Node = Node(kind: string, text: Option<string>, startByte: nat, children: seq<Child>)

  // `field` is empty for a child without a field name.
  datatype Child = Child(field: string, named: bool, node: Node)

  /** Child k is in the field, and no child before it is. */
  predicate IsFirstInField(node: Node, field: string, k: nat) {
    k < |node.children| && node.children[k].field == field &&
    forall j :: 0 <= j < k ==> node.children[j].field != field
  }

  /** Child k is named, and no child before it is. */
  predicate IsFirstNamed(node: Node, k: nat) {
    k < |node.children| && node.children[k].named && forall j :: 0 <= j < k ==> !node.children[j].named
  }

  /** `child_by_field_name`: the first child in that field. */
  function ChildByField(node: Node, field: string): (r: Option<Node>)
    ensures r.Some? ==> r.value < node
  {
    FirstInField(node, field, 0)
  }

  function FirstInField(node: Node, field: string, i: nat): (r: Option<Node>)
    requires i <= |node.children|
    ensures r.Some? ==> r.value < node
    decreases |node.children| - i
  {
    if i == |node.children| then None
    else if node.children[i].field == field then Some(node.children[i].node)
    else FirstInField(node, field, i + 1)
  }

  /** `child(0)` */
  function FirstChild(node: Node): (r: Option<Node>)
    ensures r.Some? ==> r.value < node
    ensures r == None <==> node.children == []
    ensures r.Some? ==> r.value == node.children[0].node
  {
    if node.children == [] then None else Some(node.children[0].node)
  }

  /** `named_child(0)` */
  function FirstNamedChild(node: Node): (r: Option<Node>)
    ensures r.Some? ==> r.value < node
  {
    FirstNamedFrom(node, 0)
  }

  function FirstNamedFrom(node: Node, i: nat): (r: Option<Node>)
    requires i <= |node.children|
    ensures r.Some? ==> r.value < node
    decreases |node.children| - i
  {
    if i == |node.children| then None
    else if node.children[i].named then Some(node.children[i].node)
    else FirstNamedFrom(node, i + 1)
  }

  lemma {:induction false} FirstInFieldFrom(node: Node, field: string, i: nat, k: nat)
    requires i <= k && IsFirstInField(node, field, k)
    ensures FirstInField(node, field, i) == Some(node.children[k].node)
    decreases k - i
  {
    if i < k {
      FirstInFieldFrom(node, field, i + 1, k);
    }
  }

  lemma {:induction false} NoneInField(node: Node, field: string, i: nat)
    requires i <= |node.children| && forall k :: i <= k < |node.children| ==> node.children[k].field != field
    ensures FirstInField(node, field, i) == None
    decreases |node.children| - i
  {
    if i < |node.children| {
      NoneInField(node, field, i + 1);
    }
  }

  /** The child in a field is the first that has it. */
  lemma ChildByFieldMeaning(node: Node, field: string)
    ensures forall k: nat :: IsFirstInField(node, field, k) ==> ChildByField(node, field) == Some(node.children[k].node)
    ensures (forall k :: 0 <= k < |node.children| ==> node.children[k].field != field) ==>
              ChildByField(node, field) == None
  {
    forall k: nat | IsFirstInField(node, field, k)
      ensures ChildByField(node, field) == Some(node.children[k].node)
    {
      FirstInFieldFrom(node, field, 0, k);
    }
    if forall k :: 0 <= k < |node.children| ==> node.children[k].field != field {
      NoneInField(node, field, 0);
    }
  }

  lemma {:induction false} FirstNamedIs(node: Node, i: nat, k: nat)
    requires i <= k && IsFirstNamed(node, k)
    ensures FirstNamedFrom(node, i) == Some(node.children[k].node)
    decreases k - i
  {
    if i < k {
      FirstNamedIs(node, i + 1, k);
    }
  }

  lemma {:induction false} NoneNamed(node: Node, i: nat)
    requires i <= |node.children| && forall k :: i <= k < |node.children| ==> !node.children[k].named
    ensures FirstNamedFrom(node, i) == None
    decreases |node.children| - i
  {
    if i < |node.children| {
      NoneNamed(node, i + 1);
    }
  }

  /** The first named child is just that. */
  lemma FirstNamedMeaning(node: Node)
    ensures forall k: nat :: IsFirstNamed(node, k) ==> FirstNamedChild(node) == Some(node.children[k].node)
    ensures (forall k :: 0 <= k < |node.children| ==> !node.children[k].named) ==> FirstNamedChild(node) == None
  {
    forall k: nat | IsFirstNamed(node, k)
      ensures FirstNamedChild(node) == Some(node.children[k].node)
    {
      FirstNamedIs(node, 0, k);
    }
    if forall k :: 0 <= k < |node.children| ==> !node.children[k].named {
      NoneNamed(node, 0);
    }
  }

  function ChildNodes(node: Node): (r: seq<Node>)
    ensures |r| == |node.children| && forall k :: 0 <= k < |r| ==> r[k] == node.children[k].node
  {
    seq(|node.children|, k requires 0 <= k < |node.children| => node.children[k].node)
  }

  /** Node and descendants in document order, not entering nodes of the given kinds. */
  function Visible(node: Node, closed: set<string>): seq<Node>
    decreases node, |node.children| + 1
  {
    [node] + (if node.kind in closed then [] else VisibleChildren(node, closed, |node.children|))
  }

  /** What is visible in the first n children. */
  function VisibleChildren(node: Node, closed: set<string>, n: nat): seq<Node>
    requires n <= |node.children|
    decreases node, n
  {
    if n == 0 then [] else VisibleChildren(node, closed, n - 1) + Visible(node.children[n - 1].node, closed)
  }

  /** A path of child steps that never leaves a node of a closed kind. */
  ghost predicate Reaches(node: Node, closed: set<string>, target: Node)
    decreases node
  {
    target == node ||
    (node.kind !in closed && exists i :: 0 <= i < |node.children| && Reaches(node.children[i].node, closed, target))
  }

  /** Visible nodes are exactly those reached without entering a closed node. */
  lemma {:induction false} VisibleAreReached(node: Node, closed: set<string>, target: Node)
    ensures target in Visible(node, closed) <==> Reaches(node, closed, target)
    decreases node, |node.children| + 1
  {
    VisibleInChildren(node, closed, |node.children|, target);
  }

  lemma {:induction false} VisibleInChildren(node: Node, closed: set<string>, n: nat, target: Node)
    requires n <= |node.children|
    ensures target in VisibleChildren(node, closed, n) <==>
              exists i :: 0 <= i < n && Reaches(node.children[i].node, closed, target)
    decreases node, n
  {
    if 0 < n {
      VisibleInChildren(node, closed, n - 1, target);
      VisibleAreReached(node.children[n - 1].node, closed, target);
    }
  }

  /** Text of the child in a field. */
  function FieldText(node: Node, field: string): Option<string> {
    var child := ChildByField(node, field);
    if child.Some? then child.value.text else None
  }
}
