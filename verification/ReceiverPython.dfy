// The type of a Python receiver, from the nearest binding before the call.
module ReceiverPython {
  import opened Basics
  import opened SyntaxTree
  import opened NearestBinding

  // Bodies whose locals are not visible from outside.
  const CLOSED: set<string> := {"function_definition"}

  function TypeName(node: Node): Option<string>
    decreases node
  {
    if node.kind == "type" then
      var inner := FirstChild(node);
      if inner.Some? then TypeName(inner.value) else None
    else if node.kind == "identifier" then node.text
    else None
  }

  /** The constructor of `name = Type(...)`.  `upper` is `char::is_uppercase`. */
  function AssignCtorType(upper: char -> bool, assign: Node): Option<string> {
    var right := ChildByField(assign, "right");
    if right == None || right.value.kind != "call" then None
    else
      var func := ChildByField(right.value, "function");
      if func == None || func.value.kind != "identifier" || func.value.text == None then None
      else
        var t := func.value.text.value;
        if t != "" && upper(t[0]) then Some(t) else None
  }

  function ParameterName(p: Node): Option<string> {
    if p.kind == "typed_parameter" then
      var first := FirstChild(p);
      if first.Some? then first.value.text else None
    else if p.kind == "typed_default_parameter" then FieldText(p, "name")
    else None
  }

  function ParameterType(p: Node): Option<string> {
    var ty := ChildByField(p, "type");
    if ty.Some? then TypeName(ty.value) else None
  }

  /** A parameter is a candidate only with a recoverable type. */
  function ParameterOffer(name: string, before: nat): Node -> Option<Binding<Option<string>>> {
    p =>
      if ParameterName(p) == Some(name) && ParameterType(p).Some? && p.startByte < before
      then Some(Binding(p.startByte, ParameterType(p)))
      else None
  }

  predicate Assigns(node: Node, name: string) {
    node.kind == "assignment" &&
    var left := ChildByField(node, "left");
    left.Some? && left.value.kind == "identifier" && left.value.text == Some(name)
  }

  /** An assignment is a candidate whether or not its type is recoverable. */
  function AssignOffer(upper: char -> bool, name: string, before: nat): Node -> Option<Binding<Option<string>>> {
    n =>
      if Assigns(n, name) && n.startByte < before
      then Some(Binding(n.startByte, AssignCtorType(upper, n)))
      else None
  }

  /** Every candidate, in the order it is looked at: parameters, then assignments in the body. */
  function Candidates(upper: char -> bool, fn: Node, name: string, before: nat): seq<Binding<Option<string>>> {
    var params, body := ChildByField(fn, "parameters"), ChildByField(fn, "body");
    (if params.Some? then Collect(ChildNodes(params.value), ParameterOffer(name, before)) else [])
    + (if body.Some? then Collect(Visible(body.value, CLOSED), AssignOffer(upper, name, before)) else [])
  }

  method CollectNearestAssign(upper: char -> bool, node: Node, name: string, before: nat,
        best: Option<Binding<Option<string>>>)
    returns (r: Option<Binding<Option<string>>>)
    ensures r == NearestFrom(best, Collect(Visible(node, CLOSED), AssignOffer(upper, name, before)))
    decreases node
  {
    hide Collect, NearestFrom, Visible, VisibleChildren, Assigns, AssignCtorType;
    ghost var offer := AssignOffer(upper, name, before);
    NodeFirst(best, node, CLOSED, offer);
    r := best;
    if Assigns(node, name) && node.startByte < before && (r == None || node.startByte > r.value.start) {
      r := Some(Binding(node.startByte, AssignCtorType(upper, node)));
    }
    ghost var here := r;
    assert here == Offered(best, offer(node));
    NothingOffered(here, node, CLOSED, offer);
    if node.kind == "function_definition" {
      return;
    }
    var i := 0;
    while i < |node.children|
      invariant 0 <= i <= |node.children|
      invariant r == NearestFrom(here, Collect(VisibleChildren(node, CLOSED, i), offer))
    {
      NextChild(here, node, CLOSED, i, offer);
      r := CollectNearestAssign(upper, node.children[i].node, name, before, r);
      i := i + 1;
    }
  }

  method NearestPrecedingBindingType(upper: char -> bool, fn: Node, name: string, before: nat)
    returns (r: Option<string>)
    ensures r == TypeOf(Nearest(Candidates(upper, fn, name, before)))
  {
    hide Collect, Visible, ParameterName, ParameterType, NearestFrom;
    var best: Option<Binding<Option<string>>> := None;
    var params := ChildByField(fn, "parameters");
    NothingOffered(best, fn, CLOSED, AssignOffer(upper, name, before));
    EmptyOffers<Option<string>>();
    if params.Some? {
      best := NearestChild(params.value, ParameterOffer(name, before));
    }
    var body := ChildByField(fn, "body");
    ghost var a := if params.Some? then Collect(ChildNodes(params.value), ParameterOffer(name, before)) else [];
    ghost var b := if body.Some? then Collect(Visible(body.value, CLOSED), AssignOffer(upper, name, before)) else [];
    NearestJoins(None, a, b);
    if body.Some? {
      best := CollectNearestAssign(upper, body.value, name, before, best);
    }
    r := TypeOf(best);
  }

  // ----- what the answer means, said of the tree -----

  /** A plain name, under any number of `type` nodes. */
  ghost predicate IsNamed(node: Node, t: string)
    decreases node
  {
    || (node.kind == "identifier" && node.text == Some(t))
    || (node.kind == "type" && FirstChild(node).Some? && IsNamed(FirstChild(node).value, t))
  }

  lemma {:induction false} TypeNameMeaning(node: Node, t: string)
    ensures TypeName(node) == Some(t) <==> IsNamed(node, t)
    decreases node
  {
    if node.kind == "type" && FirstChild(node).Some? {
      TypeNameMeaning(FirstChild(node).value, t);
    }
  }

  /** `name = ...` */
  ghost predicate IsAssignmentTo(n: Node, name: string) {
    n.kind == "assignment" &&
    exists left :: ChildByField(n, "left") == Some(left) && left.kind == "identifier" && left.text == Some(name)
  }

  /** `... = callee(...)` with a plain name for the callee. */
  ghost predicate IsCallOf(n: Node, callee: string) {
    exists right, func ::
      && ChildByField(n, "right") == Some(right) && right.kind == "call"
      && ChildByField(right, "function") == Some(func) && func.kind == "identifier" && func.text == Some(callee)
  }

  /** The right-hand side constructs a `what`: it calls a plain name that begins in upper case. */
  ghost predicate Constructs(upper: char -> bool, n: Node, what: Option<string>) {
    match what
    case Some(t) => IsCallOf(n, t) && t != "" && upper(t[0])
    case None => forall t :: IsCallOf(n, t) ==> t == "" || !upper(t[0])
  }

  lemma CtorTypeMeaning(upper: char -> bool, n: Node, what: Option<string>)
    ensures AssignCtorType(upper, n) == what <==> Constructs(upper, n, what)
  {
    hide ChildByField;
  }

  /** `name: t` or `name: t = ...` among the parameters. */
  ghost predicate IsParameterOf(fn: Node, p: Node, name: string, t: string) {
    && (exists params :: ChildByField(fn, "parameters") == Some(params) && p in ChildNodes(params))
    && (|| (p.kind == "typed_parameter" && FirstChild(p).Some? && FirstChild(p).value.text == Some(name))
        || (p.kind == "typed_default_parameter" &&
            exists n :: ChildByField(p, "name") == Some(n) && n.text == Some(name)))
    && exists ty :: ChildByField(p, "type") == Some(ty) && IsNamed(ty, t)
  }

  /** In the body, outside nested functions. */
  ghost predicate IsInBody(fn: Node, n: Node) {
    exists body :: ChildByField(fn, "body") == Some(body) && Reaches(body, {"function_definition"}, n)
  }

  /** The name is bound before the call, by a node that starts at b.start, to what b.what says. */
  ghost predicate IsBound(upper: char -> bool, fn: Node, name: string, before: nat, b: Binding<Option<string>>) {
    b.start < before &&
    (|| (b.what.Some? && exists p :: IsParameterOf(fn, p, name, b.what.value) && p.startByte == b.start)
     || (exists n ::
            IsInBody(fn, n) && IsAssignmentTo(n, name) && n.startByte == b.start && Constructs(upper, n, b.what)))
  }

  lemma ParameterOffered(fn: Node, name: string, before: nat, p: Node, b: Binding<Option<string>>)
    ensures var params := ChildByField(fn, "parameters");
            params.Some? && p in ChildNodes(params.value) && ParameterOffer(name, before)(p) == Some(b) <==>
              b.start < before && b.what.Some? && IsParameterOf(fn, p, name, b.what.value) && p.startByte == b.start
  {
    hide ChildByField, TypeName, IsNamed;
    var ty := ChildByField(p, "type");
    if ty.Some? && b.what.Some? {
      TypeNameMeaning(ty.value, b.what.value);
    }
    if ty.Some? && TypeName(ty.value).Some? {
      TypeNameMeaning(ty.value, TypeName(ty.value).value);
    }
  }

  lemma AssignOffered(upper: char -> bool, name: string, before: nat, n: Node, b: Binding<Option<string>>)
    ensures AssignOffer(upper, name, before)(n) == Some(b) <==>
              b.start < before && IsAssignmentTo(n, name) && n.startByte == b.start && Constructs(upper, n, b.what)
  {
    hide AssignCtorType, ChildByField, Constructs;
    CtorTypeMeaning(upper, n, b.what);
  }

  /** The candidates are exactly the bindings of the name before the call. */
  lemma CandidatesAreExactly(upper: char -> bool, fn: Node, name: string, before: nat, b: Binding<Option<string>>)
    ensures b in Candidates(upper, fn, name, before) <==> IsBound(upper, fn, name, before, b)
  {
    hide IsAssignmentTo, Constructs, Reaches, Visible, Collect, IsParameterOf;
    var params, body := ChildByField(fn, "parameters"), ChildByField(fn, "body");
    forall p
      ensures params.Some? && p in ChildNodes(params.value) && ParameterOffer(name, before)(p) == Some(b) <==>
                b.start < before && b.what.Some? && IsParameterOf(fn, p, name, b.what.value) && p.startByte == b.start
    {
      ParameterOffered(fn, name, before, p, b);
    }
    forall n
      ensures AssignOffer(upper, name, before)(n) == Some(b) <==>
                b.start < before && IsAssignmentTo(n, name) && n.startByte == b.start && Constructs(upper, n, b.what)
    {
      AssignOffered(upper, name, before, n, b);
    }
    if params.Some? {
      CollectIsExact(ChildNodes(params.value), ParameterOffer(name, before), b);
    }
    if body.Some? {
      CollectIsExact(Visible(body.value, CLOSED), AssignOffer(upper, name, before), b);
      forall n
        ensures n in Visible(body.value, CLOSED) <==> Reaches(body.value, CLOSED, n)
      {
        VisibleAreReached(body.value, CLOSED, n);
      }
    }
  }

  /** Whatever type is answered, a binding gives it after which the name is not bound again before the call. */
  lemma NeverStale(upper: char -> bool, fn: Node, name: string, before: nat, t: string)
    requires TypeOf(Nearest(Candidates(upper, fn, name, before))) == Some(t)
    ensures exists start: nat ::
              && IsBound(upper, fn, name, before, Binding(start, Some(t)))
              && forall b :: IsBound(upper, fn, name, before, b) ==> b.start <= start
  {
    hide IsBound, Candidates;
    var nearest := Nearest(Candidates(upper, fn, name, before));
    TakenIsLast(Candidates(upper, fn, name, before));
    CandidatesAreExactly(upper, fn, name, before, nearest.value);
    forall b
      ensures IsBound(upper, fn, name, before, b) ==> b.start <= nearest.value.start
    {
      CandidatesAreExactly(upper, fn, name, before, b);
    }
    assert nearest.value == Binding(nearest.value.start, Some(t));
  }

  /** And where one binding is the last before the call, the answer is what it gives, be it nothing. */
  lemma LastBindingDecides(upper: char -> bool, fn: Node, name: string, before: nat, b: Binding<Option<string>>)
    requires IsBound(upper, fn, name, before, b)
    requires forall c :: IsBound(upper, fn, name, before, c) ==> c == b || c.start < b.start
    ensures TypeOf(Nearest(Candidates(upper, fn, name, before))) == b.what
  {
    hide IsBound, Candidates;
    forall c
      ensures c in Candidates(upper, fn, name, before) <==> IsBound(upper, fn, name, before, c)
    {
      CandidatesAreExactly(upper, fn, name, before, c);
    }
    LastIsTaken(Candidates(upper, fn, name, before), b);
  }

  /** The last binding is an assignment: the answer is the name it calls if that begins in upper case, else none. */
  lemma LastAssignmentDecides(upper: char -> bool, fn: Node, name: string, before: nat, n: Node, t: string)
    requires IsInBody(fn, n) && IsAssignmentTo(n, name) && n.startByte < before
    requires forall c :: IsBound(upper, fn, name, before, c) ==>
                           c.start < n.startByte || (c.start == n.startByte && Constructs(upper, n, c.what))
    ensures TypeOf(Nearest(Candidates(upper, fn, name, before))) == Some(t) <==>
              IsCallOf(n, t) && t != "" && upper(t[0])
  {
    hide Candidates, IsInBody, IsAssignmentTo, AssignCtorType, IsCallOf;
    var what := AssignCtorType(upper, n);
    CtorTypeMeaning(upper, n, what);
    CtorTypeMeaning(upper, n, Some(t));
    forall c
      ensures IsBound(upper, fn, name, before, c) ==> c == Binding(n.startByte, what) || c.start < n.startByte
    {
      CtorTypeMeaning(upper, n, c.what);
    }
    LastBindingDecides(upper, fn, name, before, Binding(n.startByte, what));
  }

  /** `x = make()` after the last typed binding of x, outside nested functions, leaves the receiver without a type. */
  lemma UntypedAssignmentFailsClosed(upper: char -> bool, fn: Node, name: string, before: nat, n: Node)
    requires IsInBody(fn, n) && IsAssignmentTo(n, name) && n.startByte < before
    requires forall t :: IsCallOf(n, t) ==> t == "" || !upper(t[0])
    requires forall b :: IsBound(upper, fn, name, before, b) && b.what.Some? ==> b.start < n.startByte
    ensures TypeOf(Nearest(Candidates(upper, fn, name, before))) == None
  {
    hide IsInBody, IsAssignmentTo, IsCallOf, Candidates;
    assert IsBound(upper, fn, name, before, Binding(n.startByte, None));
    var r := TypeOf(Nearest(Candidates(upper, fn, name, before)));
    if r.Some? {
      NeverStale(upper, fn, name, before, r.value);
    }
  }
}
