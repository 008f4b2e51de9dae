/** What resolution guarantees, in any state that earlier resolutions can leave behind and
    for any order of argument evaluation. */
module ResolverTheorems {
  import opened CppTypes
  import opened Bindings
  import opened ResolutionGraph
  import opened Resolver
  import opened ResolverCorrectness

  // ---- Success ----

  /** The cache only ever shortens a resolution. */
  lemma {:induction false} EvalCompletes(cfg: Config, sched: Schedule, n: Node, params: seq<Value>, st: State, fuel: nat)
    requires |params| == |n.formals| && Denote(cfg, n, fuel).Defined?
    ensures Eval(cfg, sched, n, params, st, fuel).Ok?
    decreases fuel, 0
  {
    hide PlanOf, Kids, BuildTree;
    var p := PlanAt(cfg, n);
    if !(p.Once? && p.key in st.made) {
      var kids := Kids(cfg, n);
      forall i | 0 <= i < |kids| ensures Denote(cfg, kids[i], fuel - 1).Defined? {
        DefinedKid(cfg, n, fuel, i);
      }
      EvalAllCompletes(cfg, sched, kids, SubParams(p, params), ArgumentOrder(sched, n, st.heap, |kids|), st, fuel - 1);
    }
  }

  lemma {:induction false} EvalAllCompletes(cfg: Config, sched: Schedule, ns: seq<Node>, params: seq<Value>,
                                            todo: seq<nat>, st: State, fuel: nat)
    requires SameShape(ns, params)
    requires forall i :: 0 <= i < |todo| ==> todo[i] < |ns|
    requires forall i :: 0 <= i < |ns| ==> Denote(cfg, ns[i], fuel).Defined?
    ensures EvalAll(cfg, sched, ns, params, todo, st, fuel).AllOk?
    decreases fuel, 1 + |todo|
  {
    hide PlanOf, Denote;
    if todo != [] {
      EvalCompletes(cfg, sched, ns[todo[0]], params, st, fuel);
      var st1 := Eval(cfg, sched, ns[todo[0]], params, st, fuel).st;
      EvalAllCompletes(cfg, sched, ns, params, todo[1..], st1, fuel);
    }
  }

  /** A request succeeds, at some depth, exactly when everything it reaches can be answered
      and nothing it reaches depends on itself: neither the cache nor the argument order
      matters. Without a cycle, the number of bindings bounds the depth of the recursion, and
      an unanswerable request in reach always ends the process. */
  lemma SucceedsExactly(cfg: Config, sched: Schedule, n: Node, params: seq<Value>, st: State)
    requires |params| == |n.formals| && Inv(cfg, st) && Below(params, |st.heap|)
    ensures (exists fuel: nat :: Eval(cfg, sched, n, params, st, fuel).Ok?) <==> Clean(cfg, n) && Acyclic(cfg, n)
    ensures Acyclic(cfg, n) ==>
      var r := Eval(cfg, sched, n, params, st, Limit(cfg));
      if Clean(cfg, n) then r.Ok? else r.Fatal?
  {
    hide PlanOf, Denote, Eval, DepthAtMost;
    if fuel: nat :| Eval(cfg, sched, n, params, st, fuel).Ok? {
      OnlySuccess(cfg, sched, n, params, st, fuel);
    }
    SuccessExactly(cfg, n);
    if Acyclic(cfg, n) {
      AcyclicEnds(cfg, sched, n, params, st);
      if Clean(cfg, n) {
        EvalCompletes(cfg, sched, n, params, st, Limit(cfg));
      }
    }
  }

  /** On an acyclic graph the stack never overflows, whatever the state and the argument order. */
  lemma AcyclicEnds(cfg: Config, sched: Schedule, n: Node, params: seq<Value>, st: State)
    requires |params| == |n.formals| && Acyclic(cfg, n)
    ensures Limit(cfg) == |cfg.table| + |cfg.classes| + 1
    ensures Eval(cfg, sched, n, params, st, Limit(cfg)) != OutOfFuel
  {
    hide PlanOf, Denote, Eval, DepthAtMost;
    SuccessExactly(cfg, n);
    EvalEnds(cfg, sched, n, params, st, Limit(cfg));
  }

  lemma {:induction false} EvalEnds(cfg: Config, sched: Schedule, n: Node, params: seq<Value>, st: State, fuel: nat)
    requires |params| == |n.formals| && DepthAtMost(cfg, n, fuel)
    ensures Eval(cfg, sched, n, params, st, fuel) != OutOfFuel
    decreases fuel, 0
  {
    hide PlanOf, Kids, Finish;
    var p := PlanAt(cfg, n);
    if !p.Stop? && !(p.Once? && p.key in st.made) {
      var kids := Kids(cfg, n);
      EvalAllEnds(cfg, sched, kids, SubParams(p, params), ArgumentOrder(sched, n, st.heap, |kids|), st, fuel - 1);
    }
  }

  lemma {:induction false} EvalAllEnds(cfg: Config, sched: Schedule, ns: seq<Node>, params: seq<Value>,
                                       todo: seq<nat>, st: State, fuel: nat)
    requires SameShape(ns, params)
    requires forall i :: 0 <= i < |todo| ==> todo[i] < |ns|
    requires forall i :: 0 <= i < |ns| ==> DepthAtMost(cfg, ns[i], fuel)
    ensures EvalAll(cfg, sched, ns, params, todo, st, fuel) != Failed(OutOfFuel)
    decreases fuel, 1 + |todo|
  {
    hide PlanOf, Kids, DepthAtMost;
    if todo != [] {
      EvalEnds(cfg, sched, ns[todo[0]], params, st, fuel);
      var r := Eval(cfg, sched, ns[todo[0]], params, st, fuel);
      if r.Ok? {
        EvalAllEnds(cfg, sched, ns, params, todo[1..], r.st, fuel);
      }
    }
  }

  lemma OnlySuccess(cfg: Config, sched: Schedule, n: Node, params: seq<Value>, st: State, fuel: nat)
    requires |params| == |n.formals| && Inv(cfg, st) && Below(params, |st.heap|)
    requires Eval(cfg, sched, n, params, st, fuel).Ok?
    ensures Clean(cfg, n) && Acyclic(cfg, n)
  {
    hide PlanOf, Denote, Eval;
    EvalAgrees(cfg, sched, n, params, st, fuel);
    DefinedIsClean(cfg, n, Limit(cfg));
    DefinedIsAcyclic(cfg, n, Limit(cfg));
  }

  /** More depth never changes an outcome, be it a result with its state or an abort. */
  lemma {:induction false} EvalMonotone(cfg: Config, sched: Schedule, n: Node, params: seq<Value>, st: State, f: nat, g: nat)
    requires |params| == |n.formals| && f <= g && Eval(cfg, sched, n, params, st, f) != OutOfFuel
    ensures Eval(cfg, sched, n, params, st, g) == Eval(cfg, sched, n, params, st, f)
    decreases f, 0
  {
    hide PlanOf, Kids, Finish;
    var p := PlanAt(cfg, n);
    if !p.Stop? && !(p.Once? && p.key in st.made) {
      var kids := Kids(cfg, n);
      EvalAllMonotone(cfg, sched, kids, SubParams(p, params), ArgumentOrder(sched, n, st.heap, |kids|), st, f - 1, g - 1);
    }
  }

  lemma {:induction false} EvalAllMonotone(cfg: Config, sched: Schedule, ns: seq<Node>, params: seq<Value>,
                                           todo: seq<nat>, st: State, f: nat, g: nat)
    requires SameShape(ns, params) && f <= g
    requires forall i :: 0 <= i < |todo| ==> todo[i] < |ns|
    requires EvalAll(cfg, sched, ns, params, todo, st, f) != Failed(OutOfFuel)
    ensures EvalAll(cfg, sched, ns, params, todo, st, g) == EvalAll(cfg, sched, ns, params, todo, st, f)
    decreases f, 1 + |todo|
  {
    hide PlanOf, Kids;
    if todo != [] {
      EvalMonotone(cfg, sched, ns[todo[0]], params, st, f, g);
      var r := Eval(cfg, sched, ns[todo[0]], params, st, f);
      if r.Ok? {
        EvalAllMonotone(cfg, sched, ns, params, todo[1..], r.st, f, g);
      }
    }
  }

  // ---- Failure ----

  ghost predicate StopsWith(cfg: Config, n: Node, why: Reason) {
    exists m :: Reaches(cfg, n, m) && PlanAt(cfg, m) == Stop(why)
  }

  /** The process aborts only because of a request in reach that cannot be answered. */
  lemma {:induction false} FatalIsReachable(cfg: Config, sched: Schedule, n: Node, params: seq<Value>, st: State, fuel: nat)
    requires |params| == |n.formals| && Eval(cfg, sched, n, params, st, fuel).Fatal?
    ensures StopsWith(cfg, n, Eval(cfg, sched, n, params, st, fuel).why)
    decreases fuel, 0
  {
    hide PlanOf, Kids;
    var p := PlanAt(cfg, n);
    if p.Stop? {
      ReachesSelf(cfg, n);
    } else {
      var kids := Kids(cfg, n);
      var order := ArgumentOrder(sched, n, st.heap, |kids|);
      var all := EvalAll(cfg, sched, kids, SubParams(p, params), order, st, fuel - 1);
      assert all.Failed?;
      var i := FatalAmong(cfg, sched, kids, SubParams(p, params), order, st, fuel - 1);
      var m :| Reaches(cfg, kids[i], m) && PlanAt(cfg, m) == Stop(all.o.why);
      ReachesThroughKid(cfg, n, i, m);
    }
  }

  lemma {:induction false} FatalAmong(cfg: Config, sched: Schedule, ns: seq<Node>, params: seq<Value>,
                                      todo: seq<nat>, st: State, fuel: nat) returns (i: nat)
    requires SameShape(ns, params)
    requires forall i :: 0 <= i < |todo| ==> todo[i] < |ns|
    requires EvalAll(cfg, sched, ns, params, todo, st, fuel).Failed?
    requires EvalAll(cfg, sched, ns, params, todo, st, fuel).o.Fatal?
    ensures i < |ns| && StopsWith(cfg, ns[i], EvalAll(cfg, sched, ns, params, todo, st, fuel).o.why)
    decreases fuel, 1 + |todo|
  {
    hide PlanOf, Kids;
    i := todo[0];
    var r := Eval(cfg, sched, ns[todo[0]], params, st, fuel);
    if r.Fatal? {
      FatalIsReachable(cfg, sched, ns[todo[0]], params, st, fuel);
    } else if r.Ok? {
      i := FatalAmong(cfg, sched, ns, params, todo[1..], r.st, fuel);
    }
  }

  /** With a cycle but no fatal request in reach, the recursion overflows every stack. */
  lemma CycleOverflows(cfg: Config, sched: Schedule, n: Node, params: seq<Value>, st: State, fuel: nat)
    requires |params| == |n.formals| && Inv(cfg, st) && Below(params, |st.heap|)
    requires Clean(cfg, n) && !Acyclic(cfg, n)
    ensures Eval(cfg, sched, n, params, st, fuel) == OutOfFuel
  {
    hide PlanOf, Eval, Denote;
    match Eval(cfg, sched, n, params, st, fuel)
    case Ok(_, _) => SucceedsExactly(cfg, sched, n, params, st);
    case Fatal(_) => FatalIsReachable(cfg, sched, n, params, st, fuel);
    case OutOfFuel =>
  }

  // ---- Confluence ----

  /** Two resolutions of one request, from one state, under two argument orders: equal
      objects up to their addresses, and the same singletons created. */
  lemma Confluence(cfg: Config, s1: Schedule, s2: Schedule, n: Node, params: seq<Value>, st: State, f1: nat, f2: nat)
    requires |params| == |n.formals| && Inv(cfg, st) && Below(params, |st.heap|)
    requires Eval(cfg, s1, n, params, st, f1).Ok? && Eval(cfg, s2, n, params, st, f2).Ok?
    ensures var r1, r2 := Eval(cfg, s1, n, params, st, f1), Eval(cfg, s2, n, params, st, f2);
      && HeapOk(r1.st.heap) && Top(r1.v) <= |r1.st.heap|
      && HeapOk(r2.st.heap) && Top(r2.v) <= |r2.st.heap|
      && Unfold(r1.st.heap, r1.v) == Unfold(r2.st.heap, r2.v)
      && r1.st.made.Keys == r2.st.made.Keys
  {
    hide PlanOf, Eval, Denote, Needs;
    EvalAgrees(cfg, s1, n, params, st, f1);
    EvalAgrees(cfg, s2, n, params, st, f2);
    var r1, r2 := Eval(cfg, s1, n, params, st, f1), Eval(cfg, s2, n, params, st, f2);
    UnfoldAllStable(st.heap, r1.st.heap, params);
    UnfoldAllStable(st.heap, r2.st.heap, params);
  }

  // ---- Factories ----

  /** The memo-free tree mentions parameter `i`. */
  predicate Mentions(t: Tree, i: nat) {
    match t
    case Leaf(_) => false
    case Parameter(j) => i == j
    case Made(_, deps) => exists d :: 0 <= d < |deps| && Mentions(deps[d], i)
    case Copied(u) => Mentions(u, i)
    case ConvertedTo(_, u) => Mentions(u, i)
  }

  /** An assisted request for parameter `i` is reached. */
  ghost predicate NeedsParam(cfg: Config, n: Node, i: nat) {
    exists m :: Reaches(cfg, n, m) && PlanAt(cfg, m).TakeParam? && PlanAt(cfg, m).i == i
  }

  lemma NeedsParamUnfolds(cfg: Config, n: Node, i: nat)
    ensures NeedsParam(cfg, n, i) <==>
      || (PlanAt(cfg, n).TakeParam? && PlanAt(cfg, n).i == i)
      || exists k :: 0 <= k < |Kids(cfg, n)| && NeedsParam(cfg, Kids(cfg, n)[k], i)
  {
    hide PlanOf, Kids;
    var kids := Kids(cfg, n);
    if PlanAt(cfg, n).TakeParam? && PlanAt(cfg, n).i == i { ReachesSelf(cfg, n); }
    if k :| 0 <= k < |kids| && NeedsParam(cfg, kids[k], i) {
      var m :| Reaches(cfg, kids[k], m) && PlanAt(cfg, m).TakeParam? && PlanAt(cfg, m).i == i;
      ReachesThroughKid(cfg, n, k, m);
    }
    if NeedsParam(cfg, n, i) {
      var m :| Reaches(cfg, n, m) && PlanAt(cfg, m).TakeParam? && PlanAt(cfg, m).i == i;
      ReachesInversion(cfg, n, m);
    }
  }

  lemma {:induction false} MentionsExactly(cfg: Config, n: Node, f: nat, i: nat)
    requires Denote(cfg, n, f).Defined?
    ensures Mentions(Denote(cfg, n, f).tree, i) <==> NeedsParam(cfg, n, i)
    decreases f
  {
    hide PlanOf, Kids, NeedsParam, Mentions;
    var kids := Kids(cfg, n);
    var ds := DenoteAll(cfg, kids, f - 1);
    var ts := TreesOf(ds);
    forall k | 0 <= k < |kids| ensures Mentions(ts[k], i) <==> NeedsParam(cfg, kids[k], i) {
      DefinedKid(cfg, n, f, k);
      DenoteAllAt(cfg, kids, f - 1, k);
      MentionsExactly(cfg, kids[k], f - 1, i);
    }
    NeedsParamUnfolds(cfg, n, i);
    MentionsStep(PlanAt(cfg, n), ts, i);
  }

  lemma MentionsStep(p: Plan, ts: seq<Tree>, i: nat)
    requires !p.Stop? && |ts| == |SubRequests(p)|
    ensures Mentions(BuildTree(p, ts), i) <==>
      (p.TakeParam? && p.i == i) || exists k :: 0 <= k < |ts| && Mentions(ts[k], i)
  {
    if p.Forward? || p.Once? { assert forall k :: 0 <= k < |ts| ==> ts[k] == ts[0]; }
  }

  /** Somewhere above the last request of the path, a singleton is created. */
  ghost predicate BelowSingleton(cfg: Config, p: seq<Node>) {
    exists x :: 0 <= x < |p| - 1 && PlanAt(cfg, p[x]).Once?
  }

  predicate Matches(param: Param, req: Request) {
    param.tag == req.tag && TypeSpecifier(ActualType(param.ty)) == TypeSpecifier(req.ty)
  }

  predicate FirstMatch(sig: Signature, req: Request, i: nat) {
    i < |sig.params| && Matches(sig.params[i], req) && forall j :: 0 <= j < i ==> !Matches(sig.params[j], req)
  }

  predicate NoMatch(sig: Signature, req: Request) {
    forall i :: 0 <= i < |sig.params| ==> !Matches(sig.params[i], req)
  }

  /** Below a factory call, through any chain of bindings: the local context is that of the
      call, and below a singleton it is empty. An assisted request therefore reads the first
      parameter with its label and specifier; without one, or below a singleton, it is fatal. */
  lemma FactoryScoping(cfg: Config, sig: Signature, tag: Label, p: seq<Node>)
    requires IsPath(cfg, p) && p[0] == FactoryCall(sig, tag)
    ensures p[|p|-1].formals == if BelowSingleton(cfg, p) then [] else p[0].formals
    ensures var m := p[|p|-1];
      m.req.inject.Assisted? ==>
        if BelowSingleton(cfg, p) || NoMatch(sig, m.req) then PlanAt(cfg, m) == Stop(MissingAssisted)
        else exists i: nat :: FirstMatch(sig, m.req, i) && PlanAt(cfg, m) == PlanArgument(ActualType(sig.params[i].ty), i, m.req)
  {
    hide Kids, BelowSingleton;
    FormalsAlong(cfg, p);
    var m := p[|p|-1];
    if m.req.inject.Assisted? && !BelowSingleton(cfg, p) {
      var i := FirstSlot(m.formals, KeyOf(m.req));
      forall j | 0 <= j < |sig.params| ensures m.formals[j].key == KeyOf(m.req) <==> Matches(sig.params[j], m.req) {
        assert m.formals[j] == FormalOf(sig.params[j]);
      }
      if i < |m.formals| {
        assert FirstMatch(sig, m.req, i) && m.formals[i] == FormalOf(sig.params[i]);
      }
    }
  }

  lemma {:induction false} FormalsAlong(cfg: Config, p: seq<Node>)
    requires IsPath(cfg, p)
    ensures p[|p|-1].formals == if BelowSingleton(cfg, p) then [] else p[0].formals
    decreases |p|
  {
    hide PlanOf;
    if |p| > 1 {
      var q := p[..|p|-1];
      SubPath(cfg, p, 0, |p| - 1);
      FormalsAlong(cfg, q);
      assert p[|p|-1] in Kids(cfg, p[|p|-2]);
      if x :| 0 <= x < |q| - 1 && PlanAt(cfg, q[x]).Once? { assert PlanAt(cfg, p[x]).Once?; }
      if x :| 0 <= x < |p| - 1 && PlanAt(cfg, p[x]).Once? {
        if x < |q| - 1 { assert PlanAt(cfg, q[x]).Once?; }
      }
    }
  }

  /** What an assisted request brings: the value passed for its parameter, or a copy of it. */
  lemma AssistedBrings(cfg: Config, sched: Schedule, n: Node, params: seq<Value>, st: State, fuel: nat)
    requires |params| == |n.formals| && n.req.inject.Assisted? && fuel > 0
    ensures var i := FirstSlot(n.formals, KeyOf(n.req)); var r := Eval(cfg, sched, n, params, st, fuel);
      if i == |n.formals| then r == Fatal(MissingAssisted)
      else match ReadAs(n.req.ty, n.formals[i].ty)
        case Reads(copy) => r == Ok(if copy then CopyOf(params[i]) else params[i], st)
        case NoConversion => r == Fatal(BadConversion)
        case _ => r.Fatal?
  {
    hide ReadAs;
    if PlanAt(cfg, n).TakeParam? {
      assert ArgumentOrder(sched, n, st.heap, 0) == [];
    }
  }

  // ---- Internal types ----

  /** A request for the injector gives the injector itself and changes nothing; a request for a
      factory makes a new factory that remembers the label it was asked for under. */
  lemma InternalExactly(cfg: Config, sched: Schedule, n: Node, params: seq<Value>, st: State, fuel: nat)
    requires |params| == |n.formals| && n.req.inject.NormalInject? && fuel > 0
    requires var spec := TypeSpecifier(n.req.ty);
      spec in cfg.classes && (cfg.classes[spec].InjectorClass? || cfg.classes[spec].FactoryClass?)
    ensures var spec := TypeSpecifier(n.req.ty); var r := Eval(cfg, sched, n, params, st, fuel);
      if cfg.classes[spec].InjectorClass? then r == Ok(Atomic(InjectorItself(spec)), st)
      else r == Ok(Object(|st.heap|), st.(heap := st.heap + [Cell(NewFactory(n.req.tag, spec), [])]))
  {
    assert ArgumentOrder(sched, n, st.heap, 0) == [];
  }

  /** One factory, called twice in unrelated states with unrelated arguments: both results are
      instances of one tree, whose parameters are exactly those some assisted request below the
      call asks for, and singletons look the same whatever was passed. */
  lemma FactoryCallsAgree(cfg: Config, s1: Schedule, s2: Schedule, n: Node, p1: seq<Value>, p2: seq<Value>,
                          st1: State, st2: State, f1: nat, f2: nat)
    requires |p1| == |p2| == |n.formals|
    requires Inv(cfg, st1) && Inv(cfg, st2) && Below(p1, |st1.heap|) && Below(p2, |st2.heap|)
    requires Eval(cfg, s1, n, p1, st1, f1).Ok?
    requires Eval(cfg, s2, n, p2, st2, f2).Ok?
    ensures exists t :: InstanceOf(cfg, n, t, p1, st1, Eval(cfg, s1, n, p1, st1, f1))
                     && InstanceOf(cfg, n, t, p2, st2, Eval(cfg, s2, n, p2, st2, f2))
    ensures var r1, r2 := Eval(cfg, s1, n, p1, st1, f1), Eval(cfg, s2, n, p2, st2, f2);
      forall k :: k in r1.st.made && k in r2.st.made ==> SameObject(r1.st, r2.st, k)
  {
    hide PlanOf, Eval, Denote, Needs, Mentions, NeedsParam;
    var r1, r2 := Eval(cfg, s1, n, p1, st1, f1), Eval(cfg, s2, n, p2, st2, f2);
    EvalAgrees(cfg, s1, n, p1, st1, f1);
    EvalAgrees(cfg, s2, n, p2, st2, f2);
    UnfoldAllStable(st1.heap, r1.st.heap, p1);
    UnfoldAllStable(st2.heap, r2.st.heap, p2);
    var t := Den(cfg, n).tree;
    forall i: nat ensures Mentions(t, i) <==> NeedsParam(cfg, n, i) {
      MentionsExactly(cfg, n, Limit(cfg), i);
    }
    assert InstanceOf(cfg, n, t, p1, st1, r1) && InstanceOf(cfg, n, t, p2, st2, r2);
    forall k | k in r1.st.made && k in r2.st.made ensures SameObject(r1.st, r2.st, k) {
      assert CacheAgrees(cfg, r1.st, k) && CacheAgrees(cfg, r2.st, k);
    }
  }

  ghost predicate InstanceOf(cfg: Config, n: Node, t: Tree, params: seq<Value>, st: State, r: Outcome) {
    && r.Ok? && HeapOk(st.heap) && Below(params, |st.heap|)
    && HeapOk(r.st.heap) && Top(r.v) <= |r.st.heap|
    && (forall i: nat :: Mentions(t, i) <==> NeedsParam(cfg, n, i))
    && Unfold(r.st.heap, r.v) == Subst(t, UnfoldAll(st.heap, params))
  }

  ghost predicate SameObject(a: State, b: State, k: Key) {
    && HeapOk(a.heap) && HeapOk(b.heap) && k in a.made && k in b.made
    && Top(a.made[k]) <= |a.heap| && Top(b.made[k]) <= |b.heap|
    && Unfold(a.heap, a.made[k]) == Unfold(b.heap, b.made[k])
  }
}
