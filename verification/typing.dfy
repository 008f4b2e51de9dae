/** Type soundness: what comes back for a request has the requested type, every constructor
    is called with what it declares, and the only failures are the documented ones. */
module Typing {
  import opened CppTypes
  import opened Bindings
  import opened ResolutionGraph
  import opened Resolver
  import opened ResolverTheorems

  /** Pairs (class, one of its proper bases); a parameter of every statement below. */
  type Hierarchy = set<(Type, Type)>

  predicate Derives(h: Hierarchy, a: Type, b: Type) {
    a == b || (a, b) in h
  }

  ghost predicate IsHierarchy(h: Hierarchy) {
    forall a, b, c :: (a, b) in h && (b, c) in h ==> Derives(h, a, c)
  }

  /** Implicit conversion without making a new value: up the hierarchy, never dropping const. */
  predicate Converts(h: Hierarchy, from: Type, to: Type) {
    || from == to
    || (from.Pointer? && to.Pointer? && Regards(h, from.to, to.to))
    || (from.Reference? && to.Reference? && Regards(h, from.to, to.to))
  }

  predicate Regards(h: Hierarchy, from: Type, to: Type) {
    Derives(h, RemoveConst(from), RemoveConst(to)) && (from.Const? ==> to.Const?)
  }

  /** Requests as annotated arguments give them; internal types are asked for by pointer. */
  predicate TypedRequest(cfg: Config, r: Request) {
    Unqualified(r.ty) && (r.inject.NormalInject? && IsInternal(cfg, TypeSpecifier(r.ty)) ==> r.ty.Pointer?)
  }

  predicate TypedRequests(cfg: Config, rs: seq<Request>) {
    forall i :: 0 <= i < |rs| ==> TypedRequest(cfg, rs[i])
  }

  /** What the compiler has checked where an entry is bound. */
  predicate TypedEntry(cfg: Config, h: Hierarchy, k: Key, e: Entry) {
    && WellBoundEntry(cfg, k, e)
    && match e
       case BindToType(ty, dest) =>
         TypedRequest(cfg, dest) && (ty.Pointer? || ty.Reference? ==> Converts(h, dest.ty, ty))
       case BindToProvider(_, _, args) => TypedRequests(cfg, args)
       case _ => true
  }

  predicate TypedClass(cfg: Config, spec: Type, info: ClassInfo) {
    spec.Base? && (info.Injectable? ==> TypedRequests(cfg, info.ctor))
  }

  predicate WellTyped(cfg: Config, h: Hierarchy) {
    && (forall k :: k in cfg.table ==> TypedEntry(cfg, h, k, cfg.table[k]))
    && (forall s :: s in cfg.classes ==> TypedClass(cfg, s, cfg.classes[s]))
  }

  predicate TypedFormal(f: Formal) {
    Unqualified(f.ty) && f.key.spec == TypeSpecifier(f.ty)
  }

  predicate TypedNode(cfg: Config, n: Node) {
    TypedRequest(cfg, n.req) && forall i :: 0 <= i < |n.formals| ==> TypedFormal(n.formals[i])
  }

  function MakerType(m: Maker): Type {
    match m
    case New(spec) => Pointer(spec)
    case CallProvider(_, ty, _) => ty
    case NewFactory(_, spec) => Pointer(spec)
  }

  predicate HasType(h: Hierarchy, heap: seq<Cell>, v: Value, ty: Type)
    decreases v
  {
    match v
    case Atomic(Given(_, given)) => Converts(h, given, ty)
    case Atomic(InjectorItself(spec)) => Converts(h, Pointer(spec), ty)
    case Object(a) => a < |heap| && Converts(h, MakerType(heap[a].maker), ty)
    case CopyOf(u) => ty.Base? && HasType(h, heap, u, Reference(Const(ty)))
    case Converted(to, _) => to == ty
  }

  /** A value can be regarded at a more general type. */
  lemma HasTypeConverts(h: Hierarchy, heap: seq<Cell>, v: Value, from: Type, to: Type)
    requires IsHierarchy(h) && HasType(h, heap, v, from) && Converts(h, from, to)
    requires v.Converted? ==> from.Base?
    ensures HasType(h, heap, v, to)
  {
  }

  lemma {:induction false} HasTypeStable(h: Hierarchy, heap: seq<Cell>, longer: seq<Cell>, v: Value, ty: Type)
    requires HasType(h, heap, v, ty) && heap <= longer
    ensures HasType(h, longer, v, ty)
    decreases v
  {
    match v
    case Object(a) => assert longer[a] == heap[a];
    case CopyOf(u) => HasTypeStable(h, heap, longer, u, Reference(Const(ty)));
    case _ =>
  }

  /** A value made by conversion is never a pointer or a reference. */
  predicate Shaped(v: Value) {
    match v
    case Converted(to, u) => to.Base? && Shaped(u)
    case CopyOf(u) => Shaped(u)
    case _ => true
  }

  predicate Fits(h: Hierarchy, heap: seq<Cell>, v: Value, ty: Type) {
    HasType(h, heap, v, ty) && Shaped(v)
  }

  /** Reading an entry's value at the requested type. */
  lemma ReadingFits(h: Hierarchy, heap: seq<Cell>, v: Value, entry: Type, requested: Type, copy: bool)
    requires IsHierarchy(h) && Unqualified(entry) && Unqualified(requested)
    requires ReadAs(requested, entry) == Reads(copy)
    requires Fits(h, heap, v, entry)
    ensures Fits(h, heap, CopyValue(copy, v), requested)
  {
    ReadAsExact(requested, entry);
    if copy {
      assert Converts(h, entry, Reference(Const(requested)));
      HasTypeConverts(h, heap, v, entry, Reference(Const(requested)));
    } else {
      HasTypeConverts(h, heap, v, entry, requested);
    }
  }

  // ---- Typed states ----

  /** Every constructor and every provider was called with arguments of its declared types, in
      the declared positions, whatever order they were evaluated in. */
  predicate TypedCell(cfg: Config, h: Hierarchy, heap: seq<Cell>, c: Cell) {
    var declared := DeclaredArgs(cfg, c.maker);
    && (c.maker.New? ==> c.maker.spec in cfg.classes && cfg.classes[c.maker.spec].Injectable?)
    && |c.deps| == |declared|
    && forall i :: 0 <= i < |declared| ==> Fits(h, heap, c.deps[i], declared[i].ty)
  }

  ghost predicate TypedState(cfg: Config, h: Hierarchy, st: State) {
    && (forall a :: 0 <= a < |st.heap| ==> TypedCell(cfg, h, st.heap, st.heap[a]))
    && (forall k :: k in st.made ==>
          k in cfg.table && cfg.table[k].Singleton? && Fits(h, st.heap, st.made[k], cfg.table[k].ty))
  }

  predicate TypedParams(h: Hierarchy, heap: seq<Cell>, n: Node, params: seq<Value>) {
    |params| == |n.formals| && forall i :: 0 <= i < |params| ==> Fits(h, heap, params[i], n.formals[i].ty)
  }

  lemma FitsStable(h: Hierarchy, heap: seq<Cell>, longer: seq<Cell>, v: Value, ty: Type)
    requires Fits(h, heap, v, ty) && heap <= longer
    ensures Fits(h, longer, v, ty)
  {
    HasTypeStable(h, heap, longer, v, ty);
  }

  lemma ParamsStable(h: Hierarchy, heap: seq<Cell>, longer: seq<Cell>, n: Node, params: seq<Value>)
    requires TypedParams(h, heap, n, params) && heap <= longer
    ensures TypedParams(h, longer, n, params)
  {
    hide Fits;
    forall i | 0 <= i < |params| ensures Fits(h, longer, params[i], n.formals[i].ty) {
      FitsStable(h, heap, longer, params[i], n.formals[i].ty);
    }
  }

  lemma CellStable(cfg: Config, h: Hierarchy, heap: seq<Cell>, longer: seq<Cell>, c: Cell)
    requires TypedCell(cfg, h, heap, c) && heap <= longer
    ensures TypedCell(cfg, h, longer, c)
  {
    hide Fits;
    var declared := DeclaredArgs(cfg, c.maker);
    forall i | 0 <= i < |declared| ensures Fits(h, longer, c.deps[i], declared[i].ty) {
      FitsStable(h, heap, longer, c.deps[i], declared[i].ty);
    }
  }

  lemma StateStable(cfg: Config, h: Hierarchy, st: State, cell: Cell)
    requires TypedState(cfg, h, st) && TypedCell(cfg, h, st.heap, cell)
    ensures TypedState(cfg, h, st.(heap := st.heap + [cell]))
  {
    hide Fits, TypedCell;
    var longer := st.heap + [cell];
    forall a | 0 <= a < |longer| ensures TypedCell(cfg, h, longer, longer[a]) {
      CellStable(cfg, h, st.heap, longer, longer[a]);
    }
    forall k | k in st.made ensures Fits(h, longer, st.made[k], cfg.table[k].ty) {
      FitsStable(h, st.heap, longer, st.made[k], cfg.table[k].ty);
    }
  }

  // ---- Nodes stay typed ----

  lemma KidsTyped(cfg: Config, h: Hierarchy, n: Node)
    requires WellTyped(cfg, h) && TypedNode(cfg, n) && !PlanAt(cfg, n).Stop?
    ensures forall i :: 0 <= i < |Kids(cfg, n)| ==> TypedNode(cfg, Kids(cfg, n)[i])
  {
    hide PlanOf;
    KidsOfSite(cfg, n);
    SiteRequestsTyped(cfg, h, SiteOf(cfg, n.req));
    var rs := SubRequests(PlanAt(cfg, n));
    forall i | 0 <= i < |Kids(cfg, n)| ensures TypedNode(cfg, Kids(cfg, n)[i]) {
      assert Kids(cfg, n)[i] == Node(SubFormals(PlanAt(cfg, n), n.formals), rs[i]);
    }
  }

  lemma SiteRequestsTyped(cfg: Config, h: Hierarchy, s: Site)
    requires WellTyped(cfg, h)
    ensures TypedRequests(cfg, SiteRequests(cfg, s))
  {
    match s
    case AtKey(key) =>
      if key in cfg.table { assert TypedEntry(cfg, h, key, cfg.table[key]); }
    case AtClass(spec) =>
      if spec in cfg.classes { assert TypedClass(cfg, spec, cfg.classes[spec]); }
    case NoBinding =>
  }

  /** The entry or argument slot that answers a request, by the type it was declared with. */
  function AnsweredAt(cfg: Config, n: Node): (ty: Type)
    requires !PlanAt(cfg, n).Stop?
  {
    var p := PlanAt(cfg, n);
    match p
    case TakeParam(i, _) => n.formals[i].ty
    case TakeAtom(Given(_, ty), _) => ty
    case TakeAtom(InjectorItself(spec), _) => Pointer(spec)
    case Forward(to, _, _) => to
    case Invoke(maker, _, _) => MakerType(maker)
    case Once(k, inner, _) => inner.ty
  }

  predicate PlanCopies(p: Plan)
    requires !p.Stop?
  {
    match p
    case TakeParam(_, copy) => copy
    case TakeAtom(_, copy) => copy
    case Forward(_, _, copy) => copy
    case Invoke(_, _, copy) => copy
    case Once(_, _, copy) => copy
  }

  /** Every plan that is not fatal reads a well-formed type at the requested one; internal
      types, which bypass the reader, are handed out by plain pointer. */
  lemma PlanReads(cfg: Config, h: Hierarchy, n: Node)
    requires WellTyped(cfg, h) && TypedNode(cfg, n) && !PlanAt(cfg, n).Stop?
    ensures Unqualified(AnsweredAt(cfg, n))
    ensures ReadAs(n.req.ty, AnsweredAt(cfg, n)) == Reads(PlanCopies(PlanAt(cfg, n)))
  {
    var spec := TypeSpecifier(n.req.ty);
    var key := KeyOf(n.req);
    if n.req.inject.Assisted? {
    } else if IsInternal(cfg, spec) {
      assert TypedClass(cfg, spec, cfg.classes[spec]);
      ReadAsExact(n.req.ty, Pointer(spec));
    } else if key in cfg.table {
      assert TypedEntry(cfg, h, key, cfg.table[key]);
    } else {
      assert TypedClass(cfg, spec, cfg.classes[spec]);
    }
  }

  // ---- Resolution ----

  /** What a plan needs of the values of its sub-requests. */
  ghost predicate TypedResults(h: Hierarchy, heap: seq<Cell>, p: Plan, vs: seq<Value>) {
    var rs := SubRequests(p);
    |vs| == |rs| && forall i :: 0 <= i < |rs| ==> Fits(h, heap, vs[i], rs[i].ty)
  }

  lemma ForwardFits(cfg: Config, h: Hierarchy, n: Node, heap: seq<Cell>, v: Value)
    requires IsHierarchy(h) && WellTyped(cfg, h) && PlanAt(cfg, n).Forward?
    requires Fits(h, heap, v, PlanAt(cfg, n).dest.ty)
    ensures var p := PlanAt(cfg, n); Fits(h, heap, ConvertValue(p.dest.ty, p.to, v), p.to)
  {
    var p := PlanAt(cfg, n);
    assert TypedEntry(cfg, h, KeyOf(n.req), cfg.table[KeyOf(n.req)]);
    assert p.to == cfg.table[KeyOf(n.req)].ty && p.dest == cfg.table[KeyOf(n.req)].dest;
    if KeepsIdentity(p.dest.ty, p.to) {
      if v.Converted? { ConvertedIsBase(h, heap, v, p.dest.ty); }
      HasTypeConverts(h, heap, v, p.dest.ty, p.to);
    }
  }

  lemma ConvertedIsBase(h: Hierarchy, heap: seq<Cell>, v: Value, ty: Type)
    requires Fits(h, heap, v, ty) && v.Converted?
    ensures ty.Base?
  {
  }

  lemma InvokeTyped(cfg: Config, h: Hierarchy, n: Node, heap: seq<Cell>, vs: seq<Value>)
    requires WellTyped(cfg, h) && PlanAt(cfg, n).Invoke?
    requires TypedResults(h, heap, PlanAt(cfg, n), vs)
    ensures TypedCell(cfg, h, heap, Cell(PlanAt(cfg, n).maker, vs))
  {
    hide Fits;
  }

  /** Finishing a plan gives a value of the requested type and keeps the state typed. */
  lemma FinishFits(cfg: Config, h: Hierarchy, n: Node, params: seq<Value>, vs: seq<Value>, st: State)
    requires IsHierarchy(h) && WellTyped(cfg, h) && TypedNode(cfg, n) && !PlanAt(cfg, n).Stop?
    requires TypedState(cfg, h, st) && TypedParams(h, st.heap, n, params)
    requires TypedResults(h, st.heap, PlanAt(cfg, n), vs)
    ensures var r := Finish(PlanAt(cfg, n), params, vs, st);
      TypedState(cfg, h, r.st) && Fits(h, r.st.heap, r.v, n.req.ty)
  {
    hide PlanOf, Fits, TypedCell;
    var p := PlanAt(cfg, n);
    var r := Finish(p, params, vs, st);
    PlanReads(cfg, h, n);
    var answered := AnsweredAt(cfg, n);
    match p {
      case TakeParam(i, copy) =>
        ReadingFits(h, st.heap, params[i], answered, n.req.ty, copy);
      case TakeAtom(atom, copy) =>
        AtomFits(h, st.heap, atom);
        ReadingFits(h, st.heap, Atomic(atom), answered, n.req.ty, copy);
      case Forward(to, dest, copy) =>
        ForwardFits(cfg, h, n, st.heap, vs[0]);
        ReadingFits(h, st.heap, ConvertValue(dest.ty, to, vs[0]), answered, n.req.ty, copy);
      case Invoke(maker, _, copy) =>
        InvokeTyped(cfg, h, n, st.heap, vs);
        StateStable(cfg, h, st, Cell(maker, vs));
        ObjectFits(h, r.st.heap, |st.heap|);
        ReadingFits(h, r.st.heap, Object(|st.heap|), answered, n.req.ty, copy);
      case Once(k, inner, copy) =>
        OnceIsSingleton(cfg, n);
        OnceType(cfg, n);
        ReadingFits(h, st.heap, vs[0], answered, n.req.ty, copy);
    }
  }

  lemma OnceType(cfg: Config, n: Node)
    requires PlanAt(cfg, n).Once?
    ensures PlanAt(cfg, n).key in cfg.table && cfg.table[PlanAt(cfg, n).key].Singleton?
    ensures PlanAt(cfg, n).inner.ty == cfg.table[PlanAt(cfg, n).key].ty
  {
  }

  lemma AtomFits(h: Hierarchy, heap: seq<Cell>, atom: Atom)
    ensures Fits(h, heap, Atomic(atom), match atom case Given(_, ty) => ty case InjectorItself(spec) => Pointer(spec))
  {
  }

  lemma ObjectFits(h: Hierarchy, heap: seq<Cell>, a: nat)
    requires a < |heap|
    ensures Fits(h, heap, Object(a), MakerType(heap[a].maker))
  {
  }

  /** What a typed request returns has the requested type, for every argument order and in
      every typed state, and the state stays typed. */
  lemma {:induction false} TypeSound(cfg: Config, h: Hierarchy, sched: Schedule, n: Node, params: seq<Value>, st: State, fuel: nat)
    requires IsHierarchy(h) && WellTyped(cfg, h) && TypedNode(cfg, n)
    requires TypedState(cfg, h, st) && TypedParams(h, st.heap, n, params)
    requires Eval(cfg, sched, n, params, st, fuel).Ok?
    ensures var r := Eval(cfg, sched, n, params, st, fuel);
      && st.heap <= r.st.heap && TypedState(cfg, h, r.st)
      && Fits(h, r.st.heap, r.v, n.req.ty)
    decreases fuel, 0
  {
    hide PlanOf, Kids, Fits, TypedCell, TypedNode, WellTyped, TypedState, IsHierarchy;
    var p := PlanAt(cfg, n);
    assert !p.Stop?;
    if p.Once? && p.key in st.made {
      CachedFits(cfg, h, n, st);
    } else {
      var kids := Kids(cfg, n);
      var order := ArgumentOrder(sched, n, st.heap, |kids|);
      var sub := SubParams(p, params);
      KidsTyped(cfg, h, n);
      SubParamsTyped(cfg, h, st.heap, n, params);
      AllTypeSound(cfg, h, sched, kids, sub, order, st, fuel - 1);
      var all := EvalAll(cfg, sched, kids, sub, order, st, fuel - 1);
      var vs := Arguments(all.vs, |kids|);
      ResultsTyped(cfg, h, n, all.st.heap, vs);
      ParamsStable(h, st.heap, all.st.heap, n, params);
      FinishFits(cfg, h, n, params, vs, all.st);
    }
  }

  lemma CachedFits(cfg: Config, h: Hierarchy, n: Node, st: State)
    requires IsHierarchy(h) && WellTyped(cfg, h) && TypedNode(cfg, n) && TypedState(cfg, h, st)
    requires PlanAt(cfg, n).Once? && PlanAt(cfg, n).key in st.made
    ensures Fits(h, st.heap, CopyValue(PlanAt(cfg, n).copy, st.made[PlanAt(cfg, n).key]), n.req.ty)
  {
    hide PlanOf, Fits;
    PlanReads(cfg, h, n);
    OnceType(cfg, n);
    var p := PlanAt(cfg, n);
    ReadingFits(h, st.heap, st.made[p.key], p.inner.ty, n.req.ty, p.copy);
  }

  lemma SubParamsTyped(cfg: Config, h: Hierarchy, heap: seq<Cell>, n: Node, params: seq<Value>)
    requires TypedParams(h, heap, n, params)
    ensures forall i :: 0 <= i < |Kids(cfg, n)| ==>
      TypedParams(h, heap, Kids(cfg, n)[i], SubParams(PlanAt(cfg, n), params))
  {
    hide PlanOf, Fits;
  }

  lemma ResultsTyped(cfg: Config, h: Hierarchy, n: Node, heap: seq<Cell>, vs: seq<Value>)
    requires !PlanAt(cfg, n).Stop? && |vs| == |Kids(cfg, n)|
    requires forall i :: 0 <= i < |vs| ==> Fits(h, heap, vs[i], Kids(cfg, n)[i].req.ty)
    ensures TypedResults(h, heap, PlanAt(cfg, n), vs)
  {
    hide PlanOf, Fits;
    var rs := SubRequests(PlanAt(cfg, n));
    forall i | 0 <= i < |rs| ensures Fits(h, heap, vs[i], rs[i].ty) {
      assert Kids(cfg, n)[i].req == rs[i];
    }
  }

  lemma {:induction false} AllTypeSound(cfg: Config, h: Hierarchy, sched: Schedule, ns: seq<Node>, params: seq<Value>,
                                        todo: seq<nat>, st: State, fuel: nat)
    requires IsHierarchy(h) && WellTyped(cfg, h) && TypedState(cfg, h, st) && SameShape(ns, params)
    requires forall i :: 0 <= i < |ns| ==> TypedNode(cfg, ns[i]) && TypedParams(h, st.heap, ns[i], params)
    requires forall i :: 0 <= i < |todo| ==> todo[i] < |ns|
    requires EvalAll(cfg, sched, ns, params, todo, st, fuel).AllOk?
    ensures var r := EvalAll(cfg, sched, ns, params, todo, st, fuel);
      && st.heap <= r.st.heap && TypedState(cfg, h, r.st)
      && forall x :: x in todo ==> Fits(h, r.st.heap, r.vs[x], ns[x].req.ty)
    decreases fuel, 1 + |todo|
  {
    hide PlanOf, Kids, Fits, TypedCell, TypedNode, WellTyped, TypedState, IsHierarchy, Eval;
    if todo != [] {
      var first := todo[0];
      TypeSound(cfg, h, sched, ns[first], params, st, fuel);
      var r1 := Eval(cfg, sched, ns[first], params, st, fuel);
      forall i | 0 <= i < |ns| ensures TypedParams(h, r1.st.heap, ns[i], params) {
        ParamsStable(h, st.heap, r1.st.heap, ns[i], params);
      }
      AllTypeSound(cfg, h, sched, ns, params, todo[1..], r1.st, fuel);
      var rest := EvalAll(cfg, sched, ns, params, todo[1..], r1.st, fuel);
      FitsStable(h, r1.st.heap, rest.st.heap, r1.v, ns[first].req.ty);
      var all := EvalAll(cfg, sched, ns, params, todo, st, fuel);
      assert all.vs == rest.vs[first := r1.v] && all.st == rest.st;
      forall x | x in todo ensures Fits(h, all.st.heap, all.vs[x], ns[x].req.ty) {
        if x != first { assert x in todo[1..]; }
      }
    }
  }

  // ---- Failures ----

  /** The declared type behind a request, if the request is bound to anything usable. */
  function DeclaredType(cfg: Config, n: Node): set<Type> {
    var spec := TypeSpecifier(n.req.ty);
    var i := FirstSlot(n.formals, KeyOf(n.req));
    if n.req.inject.Assisted? then (if i < |n.formals| then {n.formals[i].ty} else {})
    else if IsInternal(cfg, spec) then {Pointer(spec)}
    else if KeyOf(n.req) in cfg.table then
      (if cfg.table[KeyOf(n.req)].InvalidEntry? then {} else {cfg.table[KeyOf(n.req)].ty})
    else if spec in cfg.classes && cfg.classes[spec].Injectable? then {Pointer(spec)}
    else {}
  }

  /** The exact cause of each fatal outcome of one request. */
  predicate Cause(cfg: Config, n: Node, why: Reason) {
    match why
    case MissingAssisted => n.req.inject.Assisted? && DeclaredType(cfg, n) == {}
    case MissingBinding => n.req.inject.NormalInject? && DeclaredType(cfg, n) == {}
    case BadConversion =>
      exists ty :: ty in DeclaredType(cfg, n)
        && n.req.ty != ty && !GainsConst(ty, n.req.ty) && !CopiesOut(ty, n.req.ty)
    case WrongTypeId => false
    case WrongDowncast => false
  }

  /** A typed request is fatal on its own exactly for these causes; the type-id check and the
      downcast check never fire. */
  lemma FailuresExactly(cfg: Config, h: Hierarchy, n: Node, why: Reason)
    requires WellTyped(cfg, h) && TypedNode(cfg, n)
    ensures PlanAt(cfg, n) == Stop(why) <==> Cause(cfg, n, why)
  {
    var spec := TypeSpecifier(n.req.ty);
    var key := KeyOf(n.req);
    if DeclaredType(cfg, n) != {} {
      if !n.req.inject.Assisted? && !IsInternal(cfg, spec) && key in cfg.table {
        assert TypedEntry(cfg, h, key, cfg.table[key]);
      } else if !n.req.inject.Assisted? {
        assert TypedClass(cfg, spec, cfg.classes[spec]);
      }
      var ty :| ty in DeclaredType(cfg, n);
      assert DeclaredType(cfg, n) == {ty};
      ReadAsExact(n.req.ty, ty);
    } else if n.req.inject.NormalInject? {
      assert key !in cfg.table;
    }
  }

  lemma {:induction false} TypedAlong(cfg: Config, h: Hierarchy, p: seq<Node>)
    requires WellTyped(cfg, h) && IsPath(cfg, p) && TypedNode(cfg, p[0])
    ensures TypedNode(cfg, p[|p|-1])
    decreases |p|
  {
    hide PlanOf, Kids, WellTyped, TypedNode;
    if |p| > 1 {
      var n := p[|p|-2];
      SubPath(cfg, p, 0, |p| - 1);
      TypedAlong(cfg, h, p[..|p|-1]);
      assert p[|p|-1] in Kids(cfg, n);
      assert !PlanAt(cfg, n).Stop?;
      KidsTyped(cfg, h, n);
    }
  }

  /** Some request in reach is well typed and cannot be answered, for this cause. */
  ghost predicate CauseInReach(cfg: Config, n: Node, why: Reason) {
    exists m :: Reaches(cfg, n, m) && TypedNode(cfg, m) && Cause(cfg, m, why)
  }

  lemma CauseExactly(cfg: Config, h: Hierarchy, n: Node, why: Reason)
    requires WellTyped(cfg, h) && TypedNode(cfg, n)
    ensures StopsWith(cfg, n, why) <==> CauseInReach(cfg, n, why)
  {
    hide PlanOf, WellTyped, TypedNode, Cause;
    if m :| Reaches(cfg, n, m) && PlanAt(cfg, m) == Stop(why) {
      var p :| PathBetween(cfg, p, n, m);
      TypedAlong(cfg, h, p);
      FailuresExactly(cfg, h, m, why);
    }
    if m :| Reaches(cfg, n, m) && TypedNode(cfg, m) && Cause(cfg, m, why) {
      FailuresExactly(cfg, h, m, why);
    }
  }

  /** A whole resolution of a typed request is fatal only for a missing binding, a missing
      assisted argument or a conversion that is not allowed, somewhere in reach; and without
      a cycle it is fatal exactly when there is such a request. */
  lemma ResolutionFailsExactly(cfg: Config, h: Hierarchy, sched: Schedule, n: Node, params: seq<Value>, st: State, fuel: nat)
    requires WellTyped(cfg, h) && TypedNode(cfg, n)
    requires |params| == |n.formals| && Inv(cfg, st) && Below(params, |st.heap|)
    ensures var r := Eval(cfg, sched, n, params, st, fuel);
      r.Fatal? ==> CauseInReach(cfg, n, r.why) && r.why != WrongTypeId && r.why != WrongDowncast
    ensures Acyclic(cfg, n) && fuel >= Limit(cfg) ==>
      (Eval(cfg, sched, n, params, st, fuel).Fatal? <==> exists why :: CauseInReach(cfg, n, why))
  {
    hide PlanOf, Eval, WellTyped, TypedNode, Inv, Reaches;
    forall why ensures StopsWith(cfg, n, why) <==> CauseInReach(cfg, n, why) {
      CauseExactly(cfg, h, n, why);
    }
    if Eval(cfg, sched, n, params, st, fuel).Fatal? {
      FatalIsReachable(cfg, sched, n, params, st, fuel);
    }
    if Acyclic(cfg, n) && fuel >= Limit(cfg) {
      SucceedsExactly(cfg, sched, n, params, st);
      EvalMonotone(cfg, sched, n, params, st, Limit(cfg), fuel);
      if m :| Reaches(cfg, n, m) && PlanAt(cfg, m).Stop? {
        assert StopsWith(cfg, n, PlanAt(cfg, m).why);
      }
    }
  }
}
