/** What the binder's documentation promises about each kind of binding, for every module,
    every state and every outcome. */
module Promises {
  import opened CppTypes
  import opened Bindings
  import opened Modules
  import opened ResolutionGraph
  import opened Resolver
  import opened ResolverCorrectness
  import opened Typing
  import opened TypedPrograms
  import opened Runs

  /** The `i`-th call of a configuration is the one that binds its key. */
  ghost predicate InForce(cs: seq<Command>, cfg: Config, h: Hierarchy, i: nat) {
    && Flat(cs) && ApplyAll(EMPTY, cs).Some? && cfg.table == TableOf(ApplyAll(EMPTY, cs).value)
    && i < |cs| && Binds(cs[i]) && FirstToBind(cs, i, BoundKey(cs[i]))
    && Compiles(cfg, h, cs[i])
  }

  lemma EntryInForce(cs: seq<Command>, cfg: Config, h: Hierarchy, i: nat)
    requires InForce(cs, cfg, h, i)
    ensures BoundKey(cs[i]) in cfg.table
    ensures cfg.table[BoundKey(cs[i])] == EntryOf(cs[i], ScopesBefore(cs, i))
    ensures TypedEntry(cfg, h, BoundKey(cs[i]), EntryOf(cs[i], ScopesBefore(cs, i)))
  {
    hide ApplyAll, EntryOf, BoundKey, TypedEntry, Compiles;
    TableExactly(cs);
    assert ApplyAll(EMPTY, cs).value.owned[i] == OwnedBy(cs, i);
    BoundEntryTyped(cfg, h, cs[i], ScopesBefore(cs, i));
  }

  /** The request for a bound pointer, annotated with the binding's label. */
  function PointerRequest(a: Annotated): Request {
    Request(a.inject, a.tag, Pointer(a.arg))
  }

  /** `Bind<Interface, Implementation>`: a request for a pointer to the interface is the request
      for a pointer to the implementation, whatever comes of it. */
  lemma BindIsTransparent(cs: seq<Command>, cfg: Config, h: Hierarchy, i: nat, sched: Schedule,
                          formals: seq<Formal>, params: seq<Value>, st: State, fuel: nat)
    requires InForce(cs, cfg, h, i) && cs[i].Bind? && |params| == |formals|
    ensures Eval(cfg, sched, Node(formals, PointerRequest(cs[i].lhs)), params, st, fuel + 1)
         == Eval(cfg, sched, Node(formals, PointerRequest(cs[i].rhs)), params, st, fuel)
  {
    var n := Node(formals, PointerRequest(cs[i].lhs));
    ForwardPlan(cs, cfg, h, i, formals);
    hide PlanOf, ApplyAll, InForce, Eval;
    assert Kids(cfg, n)[0] == Node(formals, PointerRequest(cs[i].rhs));
    OneKid(cfg, sched, n, params, st, fuel + 1);
  }

  lemma ForwardPlan(cs: seq<Command>, cfg: Config, h: Hierarchy, i: nat, formals: seq<Formal>)
    requires InForce(cs, cfg, h, i) && cs[i].Bind?
    ensures PlanAt(cfg, Node(formals, PointerRequest(cs[i].lhs)))
         == Forward(Pointer(cs[i].lhs.arg), PointerRequest(cs[i].rhs), false)
  {
    hide ApplyAll;
    EntryInForce(cs, cfg, h, i);
    ReadAsExact(Pointer(cs[i].lhs.arg), Pointer(cs[i].lhs.arg));
  }

  /** `BindValueType`: a request for the left type is the request for the right type with its
      label; pointers and references are handed on, other types are converted. */
  lemma ValueTypeIsForwarded(cs: seq<Command>, cfg: Config, h: Hierarchy, i: nat, sched: Schedule,
                             formals: seq<Formal>, params: seq<Value>, st: State, fuel: nat)
    requires InForce(cs, cfg, h, i) && cs[i].BindValueType? && |params| == |formals|
    ensures var left, right := ActualType(cs[i].lhs.arg), ActualType(cs[i].rhs.arg);
      Eval(cfg, sched, Node(formals, Request(NormalInject, cs[i].lhs.tag, left)), params, st, fuel + 1) ==
      match Eval(cfg, sched, Node(formals, Request(cs[i].rhs.inject, cs[i].rhs.tag, right)), params, st, fuel)
      case Ok(v, later) => Ok(if left.Pointer? || left.Reference? || left == right then v else Converted(left, v), later)
      case other => other
  {
    var left, right := ActualType(cs[i].lhs.arg), ActualType(cs[i].rhs.arg);
    var n := Node(formals, Request(NormalInject, cs[i].lhs.tag, left));
    ValueTypePlan(cs, cfg, h, i, formals);
    hide PlanOf, ApplyAll, InForce, Eval;
    assert Kids(cfg, n)[0] == Node(formals, Request(cs[i].rhs.inject, cs[i].rhs.tag, right));
    OneKid(cfg, sched, n, params, st, fuel + 1);
  }

  lemma ValueTypePlan(cs: seq<Command>, cfg: Config, h: Hierarchy, i: nat, formals: seq<Formal>)
    requires InForce(cs, cfg, h, i) && cs[i].BindValueType?
    ensures PlanAt(cfg, Node(formals, Request(NormalInject, cs[i].lhs.tag, ActualType(cs[i].lhs.arg))))
         == Forward(ActualType(cs[i].lhs.arg), Request(cs[i].rhs.inject, cs[i].rhs.tag, ActualType(cs[i].rhs.arg)), false)
  {
    hide ApplyAll;
    EntryInForce(cs, cfg, h, i);
    ReadAsExact(ActualType(cs[i].lhs.arg), ActualType(cs[i].lhs.arg));
  }

  /** `BindToInstance`: every request for the pointer, or for the pointer to const, gives the
      instance and changes nothing. */
  lemma InstanceIsReturned(cs: seq<Command>, cfg: Config, h: Hierarchy, i: nat, sched: Schedule,
                           formals: seq<Formal>, params: seq<Value>, st: State, fuel: nat, ty: Type)
    requires InForce(cs, cfg, h, i) && cs[i].BindToInstance? && |params| == |formals| && fuel > 0
    requires ty == Pointer(cs[i].lhs.arg) || ty == Pointer(AddConst(cs[i].lhs.arg))
    ensures Eval(cfg, sched, Node(formals, Request(NormalInject, cs[i].lhs.tag, ty)), params, st, fuel)
         == Ok(Atomic(Given(cs[i].id, Pointer(cs[i].lhs.arg))), st)
  {
    hide ApplyAll;
    EntryInForce(cs, cfg, h, i);
    ReadAsExact(ty, Pointer(cs[i].lhs.arg));
    AtomResult(cfg, sched, Node(formals, Request(NormalInject, cs[i].lhs.tag, ty)), params, st, fuel);
  }

  lemma AtomResult(cfg: Config, sched: Schedule, n: Node, params: seq<Value>, st: State, fuel: nat)
    requires |params| == |n.formals| && fuel > 0 && PlanAt(cfg, n).TakeAtom?
    ensures Eval(cfg, sched, n, params, st, fuel)
         == Ok(CopyValue(PlanAt(cfg, n).copy, Atomic(PlanAt(cfg, n).atom)), st)
  {
    hide PlanOf;
    var order := ArgumentOrder(sched, n, st.heap, 0);
    assert order == [];
  }

  /** `BindRefToPointed`: a request for the reference, or for the reference to const, gives the
      reference itself; a request for the value gives a copy, be the reference const or not. */
  lemma ReferenceIsReturned(cs: seq<Command>, cfg: Config, h: Hierarchy, i: nat, sched: Schedule,
                            formals: seq<Formal>, params: seq<Value>, st: State, fuel: nat, ty: Type)
    requires InForce(cs, cfg, h, i) && cs[i].BindRefToPointed? && |params| == |formals| && fuel > 0
    requires var arg := cs[i].lhs.arg;
      ty == Reference(arg) || ty == Reference(AddConst(arg)) || (ty == RemoveConst(arg) && ty.Base?)
    ensures var r := Eval(cfg, sched, Node(formals, Request(NormalInject, cs[i].lhs.tag, ty)), params, st, fuel);
      var held := Atomic(Given(cs[i].id, Reference(cs[i].lhs.arg)));
      r == Ok(if ty.Reference? then held else CopyOf(held), st)
  {
    hide ApplyAll;
    EntryInForce(cs, cfg, h, i);
    ReadAsExact(ty, Reference(cs[i].lhs.arg));
    AtomResult(cfg, sched, Node(formals, Request(NormalInject, cs[i].lhs.tag, ty)), params, st, fuel);
  }

  /** `BindToValue`: every request gives the value. */
  lemma ValueIsReturned(cs: seq<Command>, cfg: Config, h: Hierarchy, i: nat, sched: Schedule,
                        formals: seq<Formal>, params: seq<Value>, st: State, fuel: nat)
    requires InForce(cs, cfg, h, i) && cs[i].BindToValue? && |params| == |formals| && fuel > 0
    ensures Eval(cfg, sched, Node(formals, RequestOf(cs[i].lhs)), params, st, fuel)
         == Ok(Atomic(Given(cs[i].id, ActualType(cs[i].lhs.arg))), st)
  {
    hide ApplyAll;
    EntryInForce(cs, cfg, h, i);
    ReadAsExact(ActualType(cs[i].lhs.arg), ActualType(cs[i].lhs.arg));
    AtomResult(cfg, sched, Node(formals, RequestOf(cs[i].lhs)), params, st, fuel);
  }

  /** `BindToScope`: requests for the pointer lead to the singleton of the call's key. */
  lemma ScopeIsSingleton(cs: seq<Command>, cfg: Config, h: Hierarchy, i: nat, formals: seq<Formal>)
    requires InForce(cs, cfg, h, i) && cs[i].BindToScope? && WellTyped(cfg, h)
    ensures LeadsTo(cfg, Node(formals, PointerRequest(cs[i].lhs)), BoundKey(cs[i]))
  {
    hide ApplyAll, PlanOf;
    EntryInForce(cs, cfg, h, i);
    ConstOrNot(cfg, BoundKey(cs[i]), formals);
  }

  /** What a maker was given: the trees of its arguments, each in its declared position. */
  ghost predicate MadeFrom(cfg: Config, t: Tree, maker: Maker, formals: seq<Formal>, args: seq<Request>, env: seq<Tree>) {
    && t.Made? && t.maker == maker && |t.deps| == |args|
    && forall i :: 0 <= i < |args| ==>
         && Den(cfg, Node(formals, args[i])).Defined?
         && t.deps[i] == Subst(Den(cfg, Node(formals, args[i])).tree, env)
  }

  /** A constructor or a user provider gets its arguments, resolved in the same context, in
      their declared positions, whatever order they were evaluated in. */
  lemma ArgumentsInPlace(cfg: Config, sched: Schedule, n: Node, params: seq<Value>, st: State, fuel: nat)
    requires |params| == |n.formals| && Inv(cfg, st) && Below(params, |st.heap|)
    requires IsInvoke(PlanAt(cfg, n)) && Eval(cfg, sched, n, params, st, fuel).Ok?
    ensures var r := Eval(cfg, sched, n, params, st, fuel); var p := PlanAt(cfg, n);
      && HeapOk(r.st.heap) && Top(r.v) <= |r.st.heap| && Below(params, |r.st.heap|)
      && MadeFrom(cfg, Unfold(r.st.heap, r.v), p.maker, n.formals, p.args, UnfoldAll(r.st.heap, params))
  {
    hide PlanOf, Eval, Denote, Inv;
    var p := PlanAt(cfg, n);
    var kids := Kids(cfg, n);
    EvalAgrees(cfg, sched, n, params, st, fuel);
    DenEquation(cfg, n);
    forall i | 0 <= i < |kids| ensures kids[i] == Node(n.formals, p.args[i]) && DenAll(cfg, kids)[i] == Den(cfg, kids[i]) {
      DenoteAllAt(cfg, kids, Limit(cfg), i);
    }
  }

  /** Without a binding, a class is made by its own constructor. */
  lemma DefaultConstructor(cfg: Config, h: Hierarchy, sched: Schedule, n: Node, params: seq<Value>, st: State, fuel: nat)
    requires |params| == |n.formals| && Inv(cfg, st) && Below(params, |st.heap|) && WellTyped(cfg, h)
    requires n.req.inject.NormalInject? && KeyOf(n.req) !in cfg.table
    requires var spec := TypeSpecifier(n.req.ty);
      && (n.req.ty == Pointer(spec) || n.req.ty == Pointer(Const(spec)))
      && spec in cfg.classes && cfg.classes[spec].Injectable?
    requires Eval(cfg, sched, n, params, st, fuel).Ok?
    ensures var r := Eval(cfg, sched, n, params, st, fuel); var spec := TypeSpecifier(n.req.ty);
      && HeapOk(r.st.heap) && Top(r.v) <= |r.st.heap| && Below(params, |r.st.heap|)
      && MadeFrom(cfg, Unfold(r.st.heap, r.v), New(spec), n.formals, cfg.classes[spec].ctor, UnfoldAll(r.st.heap, params))
  {
    ConstructorPlan(cfg, h, n);
    hide PlanOf, Eval, Denote, Inv, MadeFrom;
    ArgumentsInPlace(cfg, sched, n, params, st, fuel);
  }

  lemma ConstructorPlan(cfg: Config, h: Hierarchy, n: Node)
    requires WellTyped(cfg, h) && n.req.inject.NormalInject? && KeyOf(n.req) !in cfg.table
    requires var spec := TypeSpecifier(n.req.ty);
      && (n.req.ty == Pointer(spec) || n.req.ty == Pointer(Const(spec)))
      && spec in cfg.classes && cfg.classes[spec].Injectable?
    ensures var spec := TypeSpecifier(n.req.ty);
      PlanAt(cfg, n) == Invoke(New(spec), cfg.classes[spec].ctor, false)
  {
    var spec := TypeSpecifier(n.req.ty);
    assert TypedClass(cfg, spec, cfg.classes[spec]);
    ReadAsExact(n.req.ty, Pointer(spec));
  }

  predicate BindsProvider(c: Command) {
    c.BindPointerToProvider? || c.BindValueToProvider?
  }

  /** The request that a provider binding answers: for a pointer or for a value. */
  function ProvidedRequest(c: Command): Request
    requires BindsProvider(c)
  {
    if c.BindPointerToProvider? then PointerRequest(c.lhs) else Request(NormalInject, c.lhs.tag, ActualType(c.lhs.arg))
  }

  /** The requests for arguments as they are annotated: label, inject type and type of each, in
      the order in which they are declared. */
  predicate AsDeclared(args: seq<Annotated>, rs: seq<Request>) {
    && |rs| == |args|
    && forall j :: 0 <= j < |args| ==> rs[j] == Request(args[j].inject, args[j].tag, ActualType(args[j].arg))
  }

  /** `BindToProvider`, for pointers and for values: the provider is called with its own
      arguments, each in its declared position. */
  lemma ProviderIsCalled(cs: seq<Command>, cfg: Config, h: Hierarchy, i: nat, sched: Schedule,
                         formals: seq<Formal>, params: seq<Value>, st: State, fuel: nat)
    requires InForce(cs, cfg, h, i) && BindsProvider(cs[i])
    requires |params| == |formals| && Inv(cfg, st) && Below(params, |st.heap|)
    requires Eval(cfg, sched, Node(formals, ProvidedRequest(cs[i])), params, st, fuel).Ok?
    ensures var req := ProvidedRequest(cs[i]);
      var r := Eval(cfg, sched, Node(formals, req), params, st, fuel);
      && HeapOk(r.st.heap) && Top(r.v) <= |r.st.heap| && Below(params, |r.st.heap|)
      && exists rs :: AsDeclared(cs[i].args, rs)
           && MadeFrom(cfg, Unfold(r.st.heap, r.v), CallProvider(cs[i].id, req.ty, rs), formals, rs,
                       UnfoldAll(r.st.heap, params))
  {
    var rs := ProviderPlan(cs, cfg, h, i, formals);
    hide PlanOf, Eval, Denote, Inv, MadeFrom, InForce;
    ArgumentsInPlace(cfg, sched, Node(formals, ProvidedRequest(cs[i])), params, st, fuel);
  }

  lemma ProviderPlan(cs: seq<Command>, cfg: Config, h: Hierarchy, i: nat, formals: seq<Formal>) returns (rs: seq<Request>)
    requires InForce(cs, cfg, h, i) && BindsProvider(cs[i])
    ensures AsDeclared(cs[i].args, rs)
    ensures var req := ProvidedRequest(cs[i]);
      PlanAt(cfg, Node(formals, req)) == Invoke(CallProvider(cs[i].id, req.ty, rs), rs, false)
  {
    hide ApplyAll;
    rs := RequestsOf(cs[i].args);
    EntryInForce(cs, cfg, h, i);
    ReadAsExact(ProvidedRequest(cs[i]).ty, ProvidedRequest(cs[i]).ty);
  }

  // ---- Factories ----

  /** A factory asks for its result under its own label, as a request would in a context of the
      arguments: for a bound interface it makes what the implementation request makes. */
  lemma FactoryOfBinding(cs: seq<Command>, cfg: Config, h: Hierarchy, i: nat, sched: Schedule,
                         sig: Signature, args: seq<Value>, st: State, fuel: nat)
    requires InForce(cs, cfg, h, i) && cs[i].Bind? && |args| == |sig.params|
    requires sig.result == Pointer(cs[i].lhs.arg)
    ensures var call := FactoryCall(sig, cs[i].lhs.tag);
      Eval(cfg, sched, call, args, st, fuel + 1)
      == Eval(cfg, sched, Node(call.formals, PointerRequest(cs[i].rhs)), args, st, fuel)
  {
    hide PlanOf, ApplyAll, Eval;
    var call := FactoryCall(sig, cs[i].lhs.tag);
    assert call.req == PointerRequest(cs[i].lhs);
    BindIsTransparent(cs, cfg, h, i, sched, call.formals, args, st, fuel);
  }

  /** A factory for a scoped type hands out the singleton. */
  lemma FactoryOfScope(cs: seq<Command>, cfg: Config, h: Hierarchy, i: nat, sig: Signature)
    requires InForce(cs, cfg, h, i) && cs[i].BindToScope? && WellTyped(cfg, h)
    requires sig.result == Pointer(cs[i].lhs.arg)
    ensures LeadsTo(cfg, FactoryCall(sig, cs[i].lhs.tag), BoundKey(cs[i]))
  {
    hide ApplyAll, PlanOf, LeadsTo;
    var call := FactoryCall(sig, cs[i].lhs.tag);
    assert call.req == PointerRequest(cs[i].lhs);
    ScopeIsSingleton(cs, cfg, h, i, call.formals);
  }

  /** A factory for a class without a binding under the factory's label calls the constructor,
      with its arguments resolved in the context of the call. */
  lemma FactoryOfClass(cfg: Config, h: Hierarchy, sched: Schedule, sig: Signature, tag: Label, args: seq<Value>,
                       st: State, fuel: nat, spec: Type)
    requires |args| == |sig.params| && Inv(cfg, st) && Below(args, |st.heap|) && WellTyped(cfg, h)
    requires sig.result == Pointer(spec) && Key(NormalInject, tag, spec) !in cfg.table
    requires spec in cfg.classes && cfg.classes[spec].Injectable?
    requires Eval(cfg, sched, FactoryCall(sig, tag), args, st, fuel).Ok?
    ensures var call := FactoryCall(sig, tag); var r := Eval(cfg, sched, call, args, st, fuel);
      && HeapOk(r.st.heap) && Top(r.v) <= |r.st.heap| && Below(args, |r.st.heap|)
      && MadeFrom(cfg, Unfold(r.st.heap, r.v), New(spec), call.formals, cfg.classes[spec].ctor, UnfoldAll(r.st.heap, args))
  {
    hide Eval, Denote, Inv, MadeFrom, PlanOf;
    assert TypedClass(cfg, spec, cfg.classes[spec]);
    DefaultConstructor(cfg, h, sched, FactoryCall(sig, tag), args, st, fuel);
  }
}
