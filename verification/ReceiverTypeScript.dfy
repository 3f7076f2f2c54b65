// The type of a TypeScript receiver, from the nearest binding before the call.
module ReceiverTypeScript {
  import opened Basics
  import opened SyntaxTree
  import opened NearestBinding

  // Bodies whose locals are not visible from outside.
  const CLOSED: set<string> := {
    "function_declaration", "method_definition", "arrow_function", "function_expression"
  }

  function TypeName(node: Node): Option<string>
    decreases node
  {
    if node.kind == "type_annotation" then
      var inner := FirstNamedChild(node);
      if inner.Some? then TypeName(inner.value) else None
    else if node.kind == "type_identifier" then node.text
    else None
  }

  /** The constructor of a `new Type()` expression. */
  function NewCtorType(value: Node): Option<string> {
    if value.kind != "new_expression" then None
    else
      var ctor := ChildByField(value, "constructor");
      if ctor.Some? && ctor.value.kind == "identifier" then ctor.value.text else None
  }

  predicate IsParameterOf(p: Node, name: string) {
    p.kind in {"required_parameter", "optional_parameter"} && FieldText(p, "pattern") == Some(name)
  }

  function AnnotatedType(n: Node): Option<string> {
    var ty := ChildByField(n, "type");
    if ty.Some? then TypeName(ty.value) else None
  }

  /** A parameter is a candidate only with a recoverable type. */
  function ParameterOffer(name: string, before: nat): Node -> Option<Binding<Option<string>>> {
    p =>
      if IsParameterOf(p, name) && AnnotatedType(p).Some? && p.startByte < before
      then Some(Binding(p.startByte, AnnotatedType(p)))
      else None
  }

  /** Declares the name, or assigns to it anew. */
  predicate Binds(node: Node, name: string) {
    || (node.kind == "variable_declarator" && FieldText(node, "name") == Some(name))
    || (node.kind == "assignment_expression" && FieldText(node, "left") == Some(name))
  }

  function ValueType(node: Node, field: string): Option<string> {
    var value := ChildByField(node, field);
    if value.Some? then NewCtorType(value.value) else None
  }

  /** A declarator's annotation counts before its initializer; an assignment has only its right-hand side. */
  function BoundType(node: Node): Option<string> {
    if node.kind == "variable_declarator" then
      if AnnotatedType(node).Some? then AnnotatedType(node) else ValueType(node, "value")
    else ValueType(node, "right")
  }

  /** A declarator or assignment is a candidate whether or not its type is recoverable. */
  function BindOffer(name: string, before: nat): Node -> Option<Binding<Option<string>>> {
    n =>
      if Binds(n, name) && n.startByte < before then Some(Binding(n.startByte, BoundType(n))) else None
  }

  /** Every candidate, in the order it is looked at: parameters, then bindings in the body. */
  function Candidates(scope: Node, name: string, before: nat): seq<Binding<Option<string>>> {
    var params, body := ChildByField(scope, "parameters"), ChildByField(scope, "body");
    (if params.Some? then Collect(ChildNodes(params.value), ParameterOffer(name, before)) else [])
    + (if body.Some? then Collect(Visible(body.value, CLOSED), BindOffer(name, before)) else [])
  }

  method CollectNearestVar(node: Node, name: string, before: nat, best: Option<Binding<Option<string>>>)
    returns (r: Option<Binding<Option<string>>>)
    ensures r == NearestFrom(best, Collect(Visible(node, CLOSED), BindOffer(name, before)))
    decreases node
  {
    hide Collect, NearestFrom, Visible, VisibleChildren;
    ghost var offer := BindOffer(name, before);
    NodeFirst(best, node, CLOSED, offer);
    r := best;
    if node.kind == "variable_declarator" && FieldText(node, "name") == Some(name)
       && node.startByte < before && (r == None || node.startByte > r.value.start)
    {
      var ty := AnnotatedType(node);
      if ty == None {
        ty := ValueType(node, "value");
      }
      r := Some(Binding(node.startByte, ty));
    }
    if node.kind == "assignment_expression" && FieldText(node, "left") == Some(name)
       && node.startByte < before && (r == None || node.startByte > r.value.start)
    {
      r := Some(Binding(node.startByte, ValueType(node, "right")));
    }
    ghost var here := r;
    assert here == Offered(best, offer(node));
    NothingOffered(here, node, CLOSED, offer);
    if node.kind in {"function_declaration", "method_definition", "arrow_function", "function_expression"} {
      return;
    }
    var i := 0;
    while i < |node.children|
      invariant 0 <= i <= |node.children|
      invariant r == NearestFrom(here, Collect(VisibleChildren(node, CLOSED, i), offer))
    {
      NextChild(here, node, CLOSED, i, offer);
      r := CollectNearestVar(node.children[i].node, name, before, r);
      i := i + 1;
    }
  }

  method NearestPrecedingBindingType(scope: Node, name: string, before: nat) returns (r: Option<string>)
    ensures r == TypeOf(Nearest(Candidates(scope, name, before)))
  {
    hide Collect, Visible, IsParameterOf, AnnotatedType, NearestFrom;
    var best: Option<Binding<Option<string>>> := None;
    var params := ChildByField(scope, "parameters");
    NothingOffered(best, scope, CLOSED, BindOffer(name, before));
    EmptyOffers<Option<string>>();
    if params.Some? {
      best := NearestChild(params.value, ParameterOffer(name, before));
    }
    var body := ChildByField(scope, "body");
    ghost var a := if params.Some? then Collect(ChildNodes(params.value), ParameterOffer(name, before)) else [];
    ghost var b := if body.Some? then Collect(Visible(body.value, CLOSED), BindOffer(name, before)) else [];
    NearestJoins(None, a, b);
    if body.Some? {
      best := CollectNearestVar(body.value, name, before, best);
    }
    r := TypeOf(best);
  }

  // ----- what the answer means, said of the tree -----

  /** A type name, under any number of annotation nodes. */
  ghost predicate IsNamed(node: Node, t: string)
    decreases node
  {
    || (node.kind == "type_identifier" && node.text == Some(t))
    || (node.kind == "type_annotation" && FirstNamedChild(node).Some? && IsNamed(FirstNamedChild(node).value, t))
  }

  lemma {:induction false} TypeNameMeaning(node: Node, t: string)
    ensures TypeName(node) == Some(t) <==> IsNamed(node, t)
    decreases node
  {
    if node.kind == "type_annotation" && FirstNamedChild(node).Some? {
      TypeNameMeaning(FirstNamedChild(node).value, t);
    }
  }

  /** `n: t` */
  ghost predicate IsAnnotated(n: Node, t: string) {
    exists ty :: ChildByField(n, "type") == Some(ty) && IsNamed(ty, t)
  }

  /** `new t(...)`, with a plain name, in the given field. */
  ghost predicate IsNewOf(n: Node, field: string, t: string) {
    exists value, ctor ::
      && ChildByField(n, field) == Some(value) && value.kind == "new_expression"
      && ChildByField(value, "constructor") == Some(ctor) && ctor.kind == "identifier" && ctor.text == Some(t)
  }

  lemma AnnotationMeaning(n: Node, t: string)
    ensures AnnotatedType(n) == Some(t) <==> IsAnnotated(n, t)
  {
    hide ChildByField, TypeName, IsNamed;
    var ty := ChildByField(n, "type");
    if ty.Some? {
      TypeNameMeaning(ty.value, t);
    }
  }

  lemma NewMeaning(n: Node, field: string, t: string)
    ensures ValueType(n, field) == Some(t) <==> IsNewOf(n, field, t)
  {
    hide ChildByField;
  }

  /** `name = ...` as a declarator */
  ghost predicate IsDeclaratorOf(n: Node, name: string) {
    n.kind == "variable_declarator" && exists x :: ChildByField(n, "name") == Some(x) && x.text == Some(name)
  }

  /** `name = ...` as an assignment */
  ghost predicate IsAssignmentTo(n: Node, name: string) {
    n.kind == "assignment_expression" && exists x :: ChildByField(n, "left") == Some(x) && x.text == Some(name)
  }

  /** The node gives the name that type: by annotation, which a declarator may have, or else by `new`. */
  ghost predicate Gives(n: Node, t: string) {
    if n.kind == "variable_declarator" then
      || IsAnnotated(n, t)
      || ((forall u :: !IsAnnotated(n, u)) && IsNewOf(n, "value", t))
    else IsNewOf(n, "right", t)
  }

  ghost predicate GivesWhat(n: Node, what: Option<string>) {
    match what
    case Some(t) => Gives(n, t)
    case None => forall t :: !Gives(n, t)
  }

  lemma BoundTypeMeaning(n: Node, t: string)
    ensures BoundType(n) == Some(t) <==> Gives(n, t)
  {
    hide AnnotatedType, ValueType, IsAnnotated, IsNewOf;
    NewMeaning(n, "value", t);
    NewMeaning(n, "right", t);
    AnnotationMeaning(n, t);
    forall u
      ensures AnnotatedType(n) == Some(u) <==> IsAnnotated(n, u)
    {
      AnnotationMeaning(n, u);
    }
    if AnnotatedType(n).Some? {
      assert IsAnnotated(n, AnnotatedType(n).value);
    }
  }

  lemma WhatIsGiven(n: Node, what: Option<string>)
    ensures BoundType(n) == what <==> GivesWhat(n, what)
  {
    hide BoundType, Gives;
    forall t
      ensures BoundType(n) == Some(t) <==> Gives(n, t)
    {
      BoundTypeMeaning(n, t);
    }
    if BoundType(n).Some? {
      assert Gives(n, BoundType(n).value);
    }
  }

  /** `name: t` among the parameters. */
  ghost predicate IsParameter(scope: Node, p: Node, name: string, t: string) {
    && (exists params :: ChildByField(scope, "parameters") == Some(params) && p in ChildNodes(params))
    && (p.kind == "required_parameter" || p.kind == "optional_parameter")
    && (exists x :: ChildByField(p, "pattern") == Some(x) && x.text == Some(name))
    && IsAnnotated(p, t)
  }

  /** In the body, outside nested functions. */
  ghost predicate IsInBody(scope: Node, n: Node) {
    exists body ::
      && ChildByField(scope, "body") == Some(body)
      && Reaches(body, {"function_declaration", "method_definition", "arrow_function", "function_expression"}, n)
  }

  /** The name is bound before the call, by a node that starts at b.start, to what b.what says. */
  ghost predicate IsBound(scope: Node, name: string, before: nat, b: Binding<Option<string>>) {
    b.start < before &&
    (|| (b.what.Some? && exists p :: IsParameter(scope, p, name, b.what.value) && p.startByte == b.start)
     || (exists n ::
           && IsInBody(scope, n) && (IsDeclaratorOf(n, name) || IsAssignmentTo(n, name))
           && n.startByte == b.start && GivesWhat(n, b.what)))
  }

  lemma ParameterOffered(scope: Node, name: string, before: nat, p: Node, b: Binding<Option<string>>)
    ensures var params := ChildByField(scope, "parameters");
            params.Some? && p in ChildNodes(params.value) && ParameterOffer(name, before)(p) == Some(b) <==>
              b.start < before && b.what.Some? && IsParameter(scope, p, name, b.what.value) && p.startByte == b.start
  {
    hide ChildByField, AnnotatedType, IsAnnotated;
    if b.what.Some? {
      AnnotationMeaning(p, b.what.value);
    }
    if AnnotatedType(p).Some? {
      AnnotationMeaning(p, AnnotatedType(p).value);
    }
  }

  lemma BindOffered(name: string, before: nat, n: Node, b: Binding<Option<string>>)
    ensures BindOffer(name, before)(n) == Some(b) <==>
              && b.start < before && (IsDeclaratorOf(n, name) || IsAssignmentTo(n, name))
              && n.startByte == b.start && GivesWhat(n, b.what)
  {
    hide BoundType, ChildByField, GivesWhat;
    WhatIsGiven(n, b.what);
  }

  /** The candidates are exactly the bindings of the name before the call. */
  lemma CandidatesAreExactly(scope: Node, name: string, before: nat, b: Binding<Option<string>>)
    ensures b in Candidates(scope, name, before) <==> IsBound(scope, name, before, b)
  {
    hide IsDeclaratorOf, IsAssignmentTo, GivesWhat, Reaches, Visible, Collect, IsParameter;
    var params, body := ChildByField(scope, "parameters"), ChildByField(scope, "body");
    forall p
      ensures params.Some? && p in ChildNodes(params.value) && ParameterOffer(name, before)(p) == Some(b) <==>
                b.start < before && b.what.Some? && IsParameter(scope, p, name, b.what.value) && p.startByte == b.start
    {
      ParameterOffered(scope, name, before, p, b);
    }
    forall n
      ensures BindOffer(name, before)(n) == Some(b) <==>
                && b.start < before && (IsDeclaratorOf(n, name) || IsAssignmentTo(n, name))
                && n.startByte == b.start && GivesWhat(n, b.what)
    {
      BindOffered(name, before, n, b);
    }
    if params.Some? {
      CollectIsExact(ChildNodes(params.value), ParameterOffer(name, before), b);
    }
    if body.Some? {
      CollectIsExact(Visible(body.value, CLOSED), BindOffer(name, before), b);
      forall n
        ensures n in Visible(body.value, CLOSED) <==> Reaches(body.value, CLOSED, n)
      {
        VisibleAreReached(body.value, CLOSED, n);
      }
    }
  }

  /** Whatever type is answered, a binding gives it after which the name is not bound again before the call. */
  lemma NeverStale(scope: Node, name: string, before: nat, t: string)
    requires TypeOf(Nearest(Candidates(scope, name, before))) == Some(t)
    ensures exists start: nat ::
              && IsBound(scope, name, before, Binding(start, Some(t)))
              && forall b :: IsBound(scope, name, before, b) ==> b.start <= start
  {
    hide IsBound, Candidates;
    var nearest := Nearest(Candidates(scope, name, before));
    TakenIsLast(Candidates(scope, name, before));
    CandidatesAreExactly(scope, name, before, nearest.value);
    forall b
      ensures IsBound(scope, name, before, b) ==> b.start <= nearest.value.start
    {
      CandidatesAreExactly(scope, name, before, b);
    }
    assert nearest.value == Binding(nearest.value.start, Some(t));
  }

  /** And where one binding is the last before the call, the answer is what it gives, be it nothing. */
  lemma LastBindingDecides(scope: Node, name: string, before: nat, b: Binding<Option<string>>)
    requires IsBound(scope, name, before, b)
    requires forall c :: IsBound(scope, name, before, c) ==> c == b || c.start < b.start
    ensures TypeOf(Nearest(Candidates(scope, name, before))) == b.what
  {
    hide IsBound, Candidates;
    forall c
      ensures c in Candidates(scope, name, before) <==> IsBound(scope, name, before, c)
    {
      CandidatesAreExactly(scope, name, before, c);
    }
    LastIsTaken(Candidates(scope, name, before), b);
  }

  /** `x = other()` after the last typed binding of x, outside nested functions, leaves the receiver without a type. */
  lemma UntypedBindingFailsClosed(scope: Node, name: string, before: nat, n: Node)
    requires IsInBody(scope, n) && n.startByte < before
    requires IsDeclaratorOf(n, name) || IsAssignmentTo(n, name)
    requires forall t :: !Gives(n, t)
    requires forall b :: IsBound(scope, name, before, b) && b.what.Some? ==> b.start < n.startByte
    ensures TypeOf(Nearest(Candidates(scope, name, before))) == None
  {
    hide IsInBody, IsDeclaratorOf, IsAssignmentTo, Gives, Candidates;
    assert IsBound(scope, name, before, Binding(n.startByte, None));
    var r := TypeOf(Nearest(Candidates(scope, name, before)));
    if r.Some? {
      NeverStale(scope, name, before, r.value);
    }
  }
}
