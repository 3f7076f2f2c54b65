// The type of a Rust receiver.  Candidates carry their node; a type is looked
// for only in the nearest one.
module ReceiverRust {
  import opened Basics
  import opened SyntaxTree
  import opened NearestBinding

  const CLOSED: set<string> := {"function_item", "closure_expression"}

  // Constructors that do not return the type they are named after.
  const WRAPPER_CONSTRUCTOR_NAMES: set<string> :=
    {"Option", "Arc", "Box", "Rc", "RefCell", "Mutex", "RwLock", "Cell", "Weak"}

  // Calls that hand back the value they are made on.
  const TRANSPARENT_RESULT_ADAPTERS: set<string> := {"unwrap", "expect", "context", "with_context"}

  // ----- types of bindings -----

  function PeeledReferences(node: Node): Node
    decreases node
  {
    var inner := ChildByField(node, "type");
    if node.kind == "reference_type" && inner.Some? then PeeledReferences(inner.value) else node
  }

  method PeelReferences(node: Node) returns (r: Node)
    ensures r == PeeledReferences(node)
  {
    r := node;
    while r.kind == "reference_type"
      invariant PeeledReferences(r) == PeeledReferences(node)
      decreases r
    {
      var inner := ChildByField(r, "type");
      if inner == None {
        break;
      }
      r := inner.value;
    }
  }

  predicate IsReferenceType(node: Node) {
    node.kind == "reference_type" && ChildByField(node, "type").Some?
  }

  /** From `outer`, `inner` is reached by steps to the `type` of a reference and by no others. */
  ghost predicate IsReferredTo(outer: Node, inner: Node)
    decreases outer
  {
    || inner == outer
    || (IsReferenceType(outer) && IsReferredTo(ChildByField(outer, "type").value, inner))
  }

  /** Peeling ends at the one node referred to that is no reference itself. */
  lemma {:induction false} PeeledReferencesMeaning(node: Node, inner: Node)
    ensures inner == PeeledReferences(node) <==> IsReferredTo(node, inner) && !IsReferenceType(inner)
    decreases node
  {
    hide ChildByField;
    if IsReferenceType(node) {
      PeeledReferencesMeaning(ChildByField(node, "type").value, inner);
      assert IsReferredTo(node, inner) && !IsReferenceType(inner) ==> inner != node;
    }
  }

  function TypeIdentifierText(node: Node): Option<string>
    decreases node
  {
    if node.kind == "type_identifier" then node.text
    else if node.kind == "scoped_type_identifier" then
      var name := ChildByField(node, "name");
      if name.Some? then TypeIdentifierText(name.value) else None
    else None
  }

  /** `Arc<T>`, `Box<T>` and `Rc<T>` stand for T; every other generic type for itself. */
  function ReceiverTypeName(node: Node): Option<string> {
    var ty := PeeledReferences(node);
    if ty.kind != "generic_type" then TypeIdentifierText(ty)
    else
      var base := ChildByField(ty, "type");
      if base == None then None
      else
        var name := TypeIdentifierText(PeeledReferences(base.value));
        if name != Some("Arc") && name != Some("Box") && name != Some("Rc") then name
        else
          var args := ChildByField(ty, "type_arguments");
          var inner := if args.Some? then FirstNamedChild(args.value) else None;
          if inner.Some? then TypeIdentifierText(PeeledReferences(inner.value)) else None
  }

  /** The expression an adapter was applied to, if the node is an adapter. */
  function Adapted(value: Node): (r: Option<Node>)
    ensures r.Some? ==> r.value < value
  {
    if value.kind == "try_expression" then FirstNamedChild(value)
    else if value.kind == "call_expression" then
      var func := ChildByField(value, "function");
      if func == None || func.value.kind != "field_expression" then None
      else
        var name := FieldText(func.value, "field");
        if name.Some? && name.value in TRANSPARENT_RESULT_ADAPTERS then ChildByField(func.value, "value") else None
    else None
  }

  function PeeledAdapters(value: Node): Node
    decreases value
  {
    var inner := Adapted(value);
    if inner.Some? then PeeledAdapters(inner.value) else value
  }

  method PeelResultAdapters(value: Node) returns (r: Node)
    ensures r == PeeledAdapters(value)
  {
    r := value;
    while true
      invariant PeeledAdapters(r) == PeeledAdapters(value)
      decreases r
    {
      if r.kind == "try_expression" {
        var inner := FirstNamedChild(r);
        if inner == None {
          return;
        }
        r := inner.value;
      } else if r.kind == "call_expression" {
        var func := ChildByField(r, "function");
        if func == None || func.value.kind != "field_expression" {
          return;
        }
        var field := ChildByField(func.value, "field");
        if field == None || field.value.text == None || field.value.text.value !in TRANSPARENT_RESULT_ADAPTERS {
          return;
        }
        var recv := ChildByField(func.value, "value");
        if recv == None {
          return;
        }
        r := recv.value;
      } else {
        return;
      }
    }
  }

  /** What follows the last `::`. */
  function LastSegment(path: string): (r: string)
    ensures |r| <= |path|
  {
    if |path| < 2 then path
    else
      var rest := LastSegment(path[1..]);
      if rest != path[1..] then rest
      else if path[0] == ':' && path[1] == ':' then path[2..]
      else path
  }

  function ConstructorType(upper: char -> bool, call: Node): Option<string> {
    var func := ChildByField(call, "function");
    if func == None || func.value.kind != "scoped_identifier" then None
    else
      var path := FieldText(func.value, "path");
      if path == None then None
      else
        var seg := LastSegment(path.value);
        if seg == "" || !upper(seg[0]) || seg in WRAPPER_CONSTRUCTOR_NAMES then None else Some(seg)
  }

  function StructType(literal: Node): Option<string> {
    var name := ChildByField(literal, "name");
    if name.Some? && name.value.kind == "type_identifier" then ReceiverTypeName(name.value) else None
  }

  function LetType(upper: char -> bool, decl: Node): Option<string> {
    var ty := ChildByField(decl, "type");
    if ty.Some? then ReceiverTypeName(ty.value)
    else
      var init := ChildByField(decl, "value");
      if init == None then None
      else
        var value := PeeledAdapters(init.value);
        if value.kind == "call_expression" then ConstructorType(upper, value)
        else if value.kind == "struct_expression" then StructType(value)
        else None
  }

  function BindingType(upper: char -> bool, node: Node): Option<string> {
    if node.kind == "parameter" then
      var ty := ChildByField(node, "type");
      if ty.Some? then ReceiverTypeName(ty.value) else None
    else if node.kind == "let_declaration" then LetType(upper, node)
    else None
  }

  // ----- candidates -----

  predicate Binds(kind: string, node: Node, name: string) {
    node.kind == kind &&
    var pattern := ChildByField(node, "pattern");
    pattern.Some? && pattern.value.kind == "identifier" && pattern.value.text == Some(name)
  }

  function Offer(kind: string, name: string, before: nat): Node -> Option<Binding<Node>> {
    n => if Binds(kind, n, name) && n.startByte < before then Some(Binding(n.startByte, n)) else None
  }

  function Candidates(fn: Node, name: string, before: nat): seq<Binding<Node>> {
    var params, body := ChildByField(fn, "parameters"), ChildByField(fn, "body");
    (if params.Some? then Collect(ChildNodes(params.value), Offer("parameter", name, before)) else [])
    + (if body.Some? then Collect(Visible(body.value, CLOSED), Offer("let_declaration", name, before)) else [])
  }

  method CollectNearestLet(node: Node, name: string, before: nat, best: Option<Binding<Node>>)
    returns (r: Option<Binding<Node>>)
    ensures r == NearestFrom(best, Collect(Visible(node, CLOSED), Offer("let_declaration", name, before)))
    decreases node
  {
    hide Collect, NearestFrom, Visible, VisibleChildren, Binds;
    ghost var offer := Offer("let_declaration", name, before);
    NodeFirst(best, node, CLOSED, offer);
    r := best;
    if Binds("let_declaration", node, name) && node.startByte < before
       && (r == None || node.startByte > r.value.start)
    {
      r := Some(Binding(node.startByte, node));
    }
    ghost var here := r;
    assert here == Offered(best, offer(node));
    NothingOffered(here, node, CLOSED, offer);
    if node.kind == "function_item" || node.kind == "closure_expression" {
      return;
    }
    var i := 0;
    while i < |node.children|
      invariant 0 <= i <= |node.children|
      invariant r == NearestFrom(here, Collect(VisibleChildren(node, CLOSED, i), offer))
    {
      NextChild(here, node, CLOSED, i, offer);
      r := CollectNearestLet(node.children[i].node, name, before, r);
      i := i + 1;
    }
  }

  // ----- guards -----

  /** Names among the function's own generic parameters. */
  function GenericNames(fn: Node): set<string> {
    var params := ChildByField(fn, "type_parameters");
    if params == None then {} else GenericNamesIn(params.value, |params.value.children|)
  }

  function GenericNamesIn(params: Node, n: nat): set<string>
    requires n <= |params.children|
  {
    if n == 0 then {}
    else
      var p := params.children[n - 1].node;
      var name := FieldText(p, "name");
      GenericNamesIn(params, n - 1) + (if p.kind == "type_parameter" && name.Some? then {name.value} else {})
  }

  lemma {:induction false} GenericNamesAmong(params: Node, n: nat, x: string)
    requires n <= |params.children|
    ensures x in GenericNamesIn(params, n) <==> exists i :: 0 <= i < n && Declares(params.children[i].node, x)
  {
    if 0 < n {
      GenericNamesAmong(params, n - 1, x);
    }
  }

  predicate Declares(p: Node, x: string) {
    p.kind == "type_parameter" && FieldText(p, "name") == Some(x)
  }

  /**
   * A name is among them exactly when a type parameter of the function has it;
   * lifetimes and constants do not count.
   */
  lemma GenericNamesMeaning(fn: Node, x: string)
    ensures var params := ChildByField(fn, "type_parameters");
            x in GenericNames(fn) <==> params.Some? && exists p :: p in ChildNodes(params.value) && Declares(p, x)
  {
    hide Declares;
    var params := ChildByField(fn, "type_parameters");
    if params.Some? {
      GenericNamesAmong(params.value, |params.value.children|, x);
      var nodes := ChildNodes(params.value);
      assert forall i :: 0 <= i < |nodes| ==> nodes[i] == params.value.children[i].node;
    }
  }

  method CollectGenericNames(fn: Node) returns (names: set<string>)
    ensures names == GenericNames(fn)
  {
    var params := ChildByField(fn, "type_parameters");
    names := {};
    if params == None {
      return;
    }
    var i := 0;
    while i < |params.value.children|
      invariant 0 <= i <= |params.value.children|
      invariant names == GenericNamesIn(params.value, i)
    {
      var p := params.value.children[i].node;
      i := i + 1;
      if p.kind != "type_parameter" {
        continue;
      }
      var name := ChildByField(p, "name");
      if name.Some? && name.value.text.Some? {
        names := names + {name.value.text.value};
      }
    }
  }

  /** `Self` is the implementing type; a generic parameter is no type at all. */
  function Guarded(raw: Option<string>, implType: Option<string>, generics: set<string>): Option<string> {
    if raw == Some("Self") then implType
    else if raw.Some? && raw.value in generics then None
    else raw
  }

  /** The guarded type of the nearest binding. */
  function Answer(upper: char -> bool, fn: Node, implType: Option<string>, name: string, before: nat): Option<string>
  {
    var nearest := Nearest(Candidates(fn, name, before));
    if nearest == None then None
    else Guarded(BindingType(upper, nearest.value.what), implType, GenericNames(fn))
  }

  /** `implType` is the type of the enclosing `impl` or trait, found by walking up the tree. */
  method NearestPrecedingBindingType(upper: char -> bool, fn: Node, implType: Option<string>, name: string, before: nat)
    returns (r: Option<string>)
    ensures r == Answer(upper, fn, implType, name, before)
  {
    hide Collect, Visible, NearestFrom, BindingType, GenericNames, Binds;
    var best: Option<Binding<Node>> := None;
    var params, body := ChildByField(fn, "parameters"), ChildByField(fn, "body");
    EmptyOffers<Node>();
    if params.Some? {
      best := NearestChild(params.value, Offer("parameter", name, before));
    }
    ghost var a := if params.Some? then Collect(ChildNodes(params.value), Offer("parameter", name, before)) else [];
    ghost var b :=
      if body.Some? then Collect(Visible(body.value, CLOSED), Offer("let_declaration", name, before)) else [];
    NearestJoins(None, a, b);
    if body.Some? {
      best := CollectNearestLet(body.value, name, before, best);
    }
    if best == None {
      return None;
    }
    var raw := BindingType(upper, best.value.what);
    if raw == None {
      return None;
    }
    if raw.value == "Self" {
      return implType;
    }
    var generics := CollectGenericNames(fn);
    if raw.value in generics {
      return None;
    }
    return raw;
  }

  /** From `outer`, `inner` is reached by stripping adapters. */
  ghost predicate IsAdaptedFrom(outer: Node, inner: Node)
    decreases outer
  {
    || inner == outer
    || (Adapted(outer).Some? && IsAdaptedFrom(Adapted(outer).value, inner))
  }

  /** Peeling ends at the one expression under the adapters that bears none itself. */
  lemma {:induction false} PeelingIsFinal(value: Node, inner: Node)
    ensures inner == PeeledAdapters(value) <==> IsAdaptedFrom(value, inner) && Adapted(inner) == None
    decreases value
  {
    hide Adapted;
    if Adapted(value).Some? {
      PeelingIsFinal(Adapted(value).value, inner);
      assert IsAdaptedFrom(value, inner) && Adapted(inner) == None ==> inner != value;
    }
  }

  lemma {:induction false} PeeledAlike(outer: Node, inner: Node)
    requires IsAdaptedFrom(outer, inner)
    ensures PeeledAdapters(outer) == PeeledAdapters(inner)
    decreases outer
  {
    hide Adapted;
    if inner != outer {
      PeeledAlike(Adapted(outer).value, inner);
    }
  }

  /** Two declarations without annotation have the same type when one initializer is the other under any adapters. */
  lemma AdaptersAreTransparent(upper: char -> bool, a: Node, b: Node)
    requires ChildByField(a, "type") == None && ChildByField(b, "type") == None
    requires ChildByField(a, "value").Some? && ChildByField(b, "value").Some?
    requires IsAdaptedFrom(ChildByField(a, "value").value, ChildByField(b, "value").value)
    ensures LetType(upper, a) == LetType(upper, b)
  {
    hide PeeledAdapters, IsAdaptedFrom, ChildByField;
    PeeledAlike(ChildByField(a, "value").value, ChildByField(b, "value").value);
  }

  predicate ColonsAt(path: string, i: nat)
    requires i + 1 < |path|
  {
    path[i] == ':' && path[i + 1] == ':'
  }

  /** The last segment is what follows the last `::`, or the whole path if there is none. */
  lemma {:induction false} LastSegmentMeaning(path: string)
    ensures var from := |path| - |LastSegment(path)|;
            && LastSegment(path) == path[from..]
            && (from == 0 || (2 <= from && ColonsAt(path, from - 2)))
            && forall i: nat :: from - 1 <= i < |path| - 1 ==> !ColonsAt(path, i)
  {
    if 2 <= |path| {
      LastSegmentMeaning(path[1..]);
      assert forall i: nat :: 1 <= i < |path| - 1 ==> ColonsAt(path, i) == ColonsAt(path[1..], i - 1);
    }
  }

  // ----- what the answer means, said of the tree -----

  /** `outer` is `inner?` or `inner.unwrap()`, or another adapter on it. */
  ghost predicate IsAdapterOn(outer: Node, inner: Node) {
    || (outer.kind == "try_expression" && FirstNamedChild(outer) == Some(inner))
    || (outer.kind == "call_expression" &&
        exists func, field ::
          && ChildByField(outer, "function") == Some(func) && func.kind == "field_expression"
          && ChildByField(func, "field") == Some(field) && ChildByField(func, "value") == Some(inner)
          && (field.text == Some("unwrap") || field.text == Some("expect")
              || field.text == Some("context") || field.text == Some("with_context")))
  }

  lemma AdaptedMeaning(outer: Node, inner: Node)
    ensures Adapted(outer) == Some(inner) <==> IsAdapterOn(outer, inner)
  {
    hide ChildByField, FirstNamedChild;
  }

  /** The last name of a plain or scoped type. */
  ghost predicate IsTypeNamed(node: Node, t: string)
    decreases node
  {
    || (node.kind == "type_identifier" && node.text == Some(t))
    || (node.kind == "scoped_type_identifier" && ChildByField(node, "name").Some?
        && IsTypeNamed(ChildByField(node, "name").value, t))
  }

  lemma {:induction false} TypeIdentifierMeaning(node: Node, t: string)
    ensures TypeIdentifierText(node) == Some(t) <==> IsTypeNamed(node, t)
    decreases node
  {
    hide ChildByField;
    if node.kind == "scoped_type_identifier" && ChildByField(node, "name").Some? {
      TypeIdentifierMeaning(ChildByField(node, "name").value, t);
    }
  }

  /** The name of what is under the references. */
  ghost predicate IsNamedUnderReferences(node: Node, t: string) {
    exists inner :: IsReferredTo(node, inner) && !IsReferenceType(inner) && IsTypeNamed(inner, t)
  }

  lemma UnderReferences(node: Node, t: string)
    ensures TypeIdentifierText(PeeledReferences(node)) == Some(t) <==> IsNamedUnderReferences(node, t)
  {
    hide PeeledReferences, TypeIdentifierText, IsReferredTo, IsTypeNamed;
    TypeIdentifierMeaning(PeeledReferences(node), t);
    forall inner
      ensures inner == PeeledReferences(node) <==> IsReferredTo(node, inner) && !IsReferenceType(inner)
    {
      PeeledReferencesMeaning(node, inner);
    }
  }

  /** Under its references the type is named t; or it is a generic type named t; or an `Arc`, `Box` or `Rc` of a t. */
  ghost predicate IsReceiverType(node: Node, t: string) {
    exists ty ::
      && IsReferredTo(node, ty) && !IsReferenceType(ty)
      && if ty.kind != "generic_type" then IsTypeNamed(ty, t)
         else exists base, name ::
           && ChildByField(ty, "type") == Some(base) && IsNamedUnderReferences(base, name)
           && if name == "Arc" || name == "Box" || name == "Rc" then
                exists args, inner ::
                  && ChildByField(ty, "type_arguments") == Some(args) && FirstNamedChild(args) == Some(inner)
                  && IsNamedUnderReferences(inner, t)
              else name == t
  }

  lemma GenericMeaning(ty: Node, t: string)
    requires !IsReferenceType(ty)
    ensures ReceiverTypeName(ty) == Some(t) <==> IsReceiverType(ty, t)
  {
    hide ChildByField, PeeledReferences, TypeIdentifierText, IsReferredTo, IsTypeNamed, IsNamedUnderReferences,
         FirstNamedChild;
    OnlyItself(ty);
    TypeIdentifierMeaning(ty, t);
    var base, args := ChildByField(ty, "type"), ChildByField(ty, "type_arguments");
    if base.Some? {
      forall name
        ensures TypeIdentifierText(PeeledReferences(base.value)) == Some(name) <==>
                  IsNamedUnderReferences(base.value, name)
      {
        UnderReferences(base.value, name);
      }
    }
    if args.Some? && FirstNamedChild(args.value).Some? {
      UnderReferences(FirstNamedChild(args.value).value, t);
    }
  }

  lemma OnlyItself(ty: Node)
    requires !IsReferenceType(ty)
    ensures PeeledReferences(ty) == ty
    ensures forall inner :: IsReferredTo(ty, inner) <==> inner == ty
  {
    hide ChildByField;
  }

  lemma ReceiverTypeMeaning(node: Node, t: string)
    ensures ReceiverTypeName(node) == Some(t) <==> IsReceiverType(node, t)
  {
    hide ReceiverTypeName, PeeledReferences, IsReferredTo, IsReferenceType, IsReceiverType;
    var ty := PeeledReferences(node);
    PeeledReferencesMeaning(node, ty);
    PeeledOnce(node);
    GenericMeaning(ty, t);
    SameUnderReferences(node, ty, t);
  }

  lemma PeeledOnce(node: Node)
    ensures ReceiverTypeName(node) == ReceiverTypeName(PeeledReferences(node))
  {
    hide ChildByField, TypeIdentifierText, FirstNamedChild;
    var ty := PeeledReferences(node);
    PeeledReferencesMeaning(node, ty);
    OnlyItself(ty);
  }

  lemma SameUnderReferences(node: Node, ty: Node, t: string)
    requires ty == PeeledReferences(node)
    ensures IsReceiverType(node, t) <==> IsReceiverType(ty, t)
  {
    hide ChildByField, PeeledReferences, IsReferredTo, IsTypeNamed, IsNamedUnderReferences, FirstNamedChild,
         IsReferenceType;
    PeeledReferencesMeaning(node, ty);
    OnlyItself(ty);
    forall inner
      ensures inner == ty <==> IsReferredTo(node, inner) && !IsReferenceType(inner)
    {
      PeeledReferencesMeaning(node, inner);
    }
  }

  /** `...::t::f(...)`, where t begins in upper case and is no wrapper. */
  ghost predicate IsConstructorOf(upper: char -> bool, call: Node, t: string) {
    call.kind == "call_expression" &&
    exists func, path ::
      && ChildByField(call, "function") == Some(func) && func.kind == "scoped_identifier"
      && ChildByField(func, "path") == Some(path) && path.text.Some? && t == LastSegment(path.text.value)
      && t != "" && upper(t[0])
      && t !in {"Option", "Arc", "Box", "Rc", "RefCell", "Mutex", "RwLock", "Cell", "Weak"}
  }

  /** `t { ... }`, with a plain name. */
  ghost predicate IsLiteralOf(literal: Node, t: string) {
    literal.kind == "struct_expression" &&
    exists name :: ChildByField(literal, "name") == Some(name) && name.kind == "type_identifier" && name.text == Some(t)
  }

  /** The declared type decides; without one, the initializer under its adapters. */
  ghost predicate LetGives(upper: char -> bool, decl: Node, t: string) {
    || (exists ty :: ChildByField(decl, "type") == Some(ty) && IsReceiverType(ty, t))
    || (ChildByField(decl, "type") == None &&
        exists init, value ::
          && ChildByField(decl, "value") == Some(init)
          && IsAdaptedFrom(init, value) && (forall inner :: !IsAdapterOn(value, inner))
          && (IsConstructorOf(upper, value, t) || IsLiteralOf(value, t)))
  }

  lemma ConstructorMeaning(upper: char -> bool, call: Node, t: string)
    requires call.kind == "call_expression"
    ensures ConstructorType(upper, call) == Some(t) <==> IsConstructorOf(upper, call, t)
  {
    hide ChildByField, LastSegment;
  }

  lemma LiteralMeaning(literal: Node, t: string)
    requires literal.kind == "struct_expression"
    ensures StructType(literal) == Some(t) <==> IsLiteralOf(literal, t)
  {
    hide ChildByField;
  }

  lemma ValueMeaning(upper: char -> bool, init: Node, t: string)
    ensures var value := PeeledAdapters(init);
            (exists v ::
               && IsAdaptedFrom(init, v) && (forall inner :: !IsAdapterOn(v, inner))
               && (IsConstructorOf(upper, v, t) || IsLiteralOf(v, t))) <==>
              if value.kind == "call_expression" then ConstructorType(upper, value) == Some(t)
              else value.kind == "struct_expression" && StructType(value) == Some(t)
  {
    hide PeeledAdapters, IsAdaptedFrom, ConstructorType, StructType, IsAdapterOn, ChildByField, Adapted, LastSegment;
    var value := PeeledAdapters(init);
    forall v
      ensures v == value <==> IsAdaptedFrom(init, v) && forall inner :: !IsAdapterOn(v, inner)
    {
      PeelingIsFinal(init, v);
      forall inner
        ensures Adapted(v) == Some(inner) <==> IsAdapterOn(v, inner)
      {
        AdaptedMeaning(v, inner);
      }
      if Adapted(v).Some? {
        assert IsAdapterOn(v, Adapted(v).value);
      }
    }
    if value.kind == "call_expression" {
      ConstructorMeaning(upper, value, t);
    } else if value.kind == "struct_expression" {
      LiteralMeaning(value, t);
    }
  }

  lemma LetMeaning(upper: char -> bool, decl: Node, t: string)
    ensures LetType(upper, decl) == Some(t) <==> LetGives(upper, decl, t)
  {
    hide ReceiverTypeName, PeeledAdapters, ConstructorType, StructType, IsReceiverType, IsAdaptedFrom, IsAdapterOn,
         IsConstructorOf, IsLiteralOf, ChildByField;
    var ty, init := ChildByField(decl, "type"), ChildByField(decl, "value");
    if ty.Some? {
      ReceiverTypeMeaning(ty.value, t);
    } else if init.Some? {
      ValueMeaning(upper, init.value, t);
    }
  }

  /** A parameter with that pattern; or a `let` with that pattern outside nested functions and closures. */
  ghost predicate IsBinding(fn: Node, n: Node, name: string) {
    && (exists pattern :: ChildByField(n, "pattern") == Some(pattern)
                          && pattern.kind == "identifier" && pattern.text == Some(name))
    && (|| (n.kind == "parameter" &&
            exists params :: ChildByField(fn, "parameters") == Some(params) && n in ChildNodes(params))
        || (n.kind == "let_declaration" &&
            exists body :: ChildByField(fn, "body") == Some(body)
                           && Reaches(body, {"function_item", "closure_expression"}, n)))
  }

  ghost predicate BindingGives(upper: char -> bool, n: Node, t: string) {
    if n.kind == "parameter" then exists ty :: ChildByField(n, "type") == Some(ty) && IsReceiverType(ty, t)
    else n.kind == "let_declaration" && LetGives(upper, n, t)
  }

  lemma BindingMeaning(upper: char -> bool, n: Node, t: string)
    ensures BindingType(upper, n) == Some(t) <==> BindingGives(upper, n, t)
  {
    hide ReceiverTypeName, LetType, IsReceiverType, LetGives, ChildByField;
    LetMeaning(upper, n, t);
    var ty := ChildByField(n, "type");
    if ty.Some? {
      ReceiverTypeMeaning(ty.value, t);
    }
  }

  /** The candidates are exactly the bindings of the name before the call. */
  lemma CandidatesAreExactly(fn: Node, name: string, before: nat, b: Binding<Node>)
    ensures b in Candidates(fn, name, before) <==>
              IsBinding(fn, b.what, name) && b.what.startByte == b.start < before
  {
    hide Reaches, Visible, Collect, ChildByField;
    var params, body := ChildByField(fn, "parameters"), ChildByField(fn, "body");
    if params.Some? {
      CollectIsExact(ChildNodes(params.value), Offer("parameter", name, before), b);
    }
    if body.Some? {
      CollectIsExact(Visible(body.value, CLOSED), Offer("let_declaration", name, before), b);
      VisibleAreReached(body.value, CLOSED, b.what);
    }
  }

  /**
   * Where binding n is the last before the call, it alone decides: if it gives
   * `Self`, the answer is the implementing type; if it gives a generic parameter
   * of the function or nothing, there is none; else it is the type it gives.
   */
  lemma LastBindingDecides(upper: char -> bool, fn: Node, implType: Option<string>, name: string, before: nat, n: Node)
    requires IsBinding(fn, n, name) && n.startByte < before
    requires forall m :: IsBinding(fn, m, name) && m.startByte < before ==> m == n || m.startByte < n.startByte
    ensures var answer := Answer(upper, fn, implType, name, before);
            && (BindingGives(upper, n, "Self") ==> answer == implType)
            && (!BindingGives(upper, n, "Self") ==>
                  forall t :: answer == Some(t) <==> BindingGives(upper, n, t) && t !in GenericNames(fn))
  {
    hide IsBinding, BindingGives, BindingType, Candidates, GenericNames;
    var b := Binding(n.startByte, n);
    forall c
      ensures c in Candidates(fn, name, before) <==>
                IsBinding(fn, c.what, name) && c.what.startByte == c.start < before
    {
      CandidatesAreExactly(fn, name, before, c);
    }
    LastIsTaken(Candidates(fn, name, before), b);
    forall t
      ensures BindingType(upper, n) == Some(t) <==> BindingGives(upper, n, t)
    {
      BindingMeaning(upper, n, t);
    }
  }

  /** And any answer comes from a binding after which the name is not bound again before the call. */
  lemma NeverStale(upper: char -> bool, fn: Node, implType: Option<string>, name: string, before: nat, t: string)
    requires Answer(upper, fn, implType, name, before) == Some(t)
    ensures exists n, raw ::
              && IsBinding(fn, n, name) && n.startByte < before && BindingGives(upper, n, raw)
              && (forall m :: IsBinding(fn, m, name) && m.startByte < before ==> m.startByte <= n.startByte)
              && if raw == "Self" then implType == Some(t) else t == raw && t !in GenericNames(fn)
  {
    hide IsBinding, BindingGives, BindingType, Candidates, GenericNames;
    var candidates := Candidates(fn, name, before);
    TakenIsLast(candidates);
    var n := Nearest(candidates).value.what;
    CandidatesAreExactly(fn, name, before, Nearest(candidates).value);
    forall m
      ensures IsBinding(fn, m, name) && m.startByte < before ==> m.startByte <= n.startByte
    {
      CandidatesAreExactly(fn, name, before, Binding(m.startByte, m));
    }
    var raw := BindingType(upper, n).value;
    BindingMeaning(upper, n, raw);
  }
}
