/** Which objects constructors and providers receive, as addresses and not only as trees:
    one object per singleton, the very parameter of a factory call, and for everything else
    an object of its own. */
module Sharing {
  import opened Bindings
  import opened ResolutionGraph
  import opened Resolver
  import opened ResolverCorrectness
  import opened ResolverTheorems
  import opened Runs

  // ---- Chains of bindings, in any local context ----

  function Moved(n: Node, formals: seq<Formal>): Node {
    Node(formals, n.req)
  }

  function MovedAll(p: seq<Node>, formals: seq<Formal>): (q: seq<Node>)
    ensures |q| == |p| && forall i :: 0 <= i < |p| ==> q[i] == Moved(p[i], formals)
  {
    seq(|p|, i requires 0 <= i < |p| => Moved(p[i], formals))
  }

  /** Only an assisted request looks at the local context. */
  lemma MovedPlan(cfg: Config, n: Node, formals: seq<Formal>)
    requires PlanAt(cfg, n).Forward? || PlanAt(cfg, n).Once? || PlanAt(cfg, n).Invoke?
    ensures n.req.inject.NormalInject? && PlanAt(cfg, Moved(n, formals)) == PlanAt(cfg, n)
  {
  }

  lemma MovedStep(cfg: Config, n: Node, m: Node, formals: seq<Formal>)
    requires PointerBinding(PlanAt(cfg, n)) && m in Kids(cfg, n)
    ensures PlanAt(cfg, Moved(n, formals)) == PlanAt(cfg, n)
    ensures Moved(m, formals) in Kids(cfg, Moved(n, formals))
  {
    MovedPlan(cfg, n, formals);
    hide PlanOf;
    var i :| 0 <= i < |Kids(cfg, n)| && Kids(cfg, n)[i] == m;
    assert Kids(cfg, Moved(n, formals))[i] == Moved(m, formals);
  }

  lemma MovedChain(cfg: Config, p: seq<Node>, formals: seq<Formal>)
    requires PointerChain(cfg, p)
    ensures PointerChain(cfg, MovedAll(p, formals))
  {
    hide PlanOf, Kids;
    var q := MovedAll(p, formals);
    forall i | 0 < i < |q| ensures q[i] in Kids(cfg, q[i-1]) {
      assert PointerBinding(PlanAt(cfg, p[i-1])) && p[i] in Kids(cfg, p[i-1]);
      MovedStep(cfg, p[i-1], p[i], formals);
    }
    forall i | 0 <= i < |q| - 1 ensures PointerBinding(PlanAt(cfg, q[i])) {
      assert PointerBinding(PlanAt(cfg, p[i])) && p[i+1] in Kids(cfg, p[i+1-1]);
      MovedStep(cfg, p[i], p[i+1], formals);
    }
  }

  lemma LeadsToAnywhere(cfg: Config, n: Node, formals: seq<Formal>, k: Key)
    requires LeadsTo(cfg, n, k)
    ensures LeadsTo(cfg, Moved(n, formals), k)
  {
    hide PlanOf;
    var p :| PointerChain(cfg, p) && p[0] == n && IsOnce(PlanAt(cfg, p[|p|-1]), k);
    MovedChain(cfg, p, formals);
    MovedPlan(cfg, p[|p|-1], formals);
    var q := MovedAll(p, formals);
    assert q[0] == Moved(n, formals) && IsOnce(PlanAt(cfg, q[|q|-1]), k);
  }

  lemma LeadsToNewAnywhere(cfg: Config, n: Node, formals: seq<Formal>)
    requires LeadsToNew(cfg, n)
    ensures LeadsToNew(cfg, Moved(n, formals))
  {
    hide PlanOf;
    var p :| PointerChain(cfg, p) && p[0] == n && IsNew(PlanAt(cfg, p[|p|-1]));
    MovedChain(cfg, p, formals);
    MovedPlan(cfg, p[|p|-1], formals);
    var q := MovedAll(p, formals);
    assert q[0] == Moved(n, formals) && IsNew(PlanAt(cfg, q[|q|-1]));
  }

  /** The request ends, through pointer bindings, in parameter `i` of the factory call. */
  ghost predicate LeadsToParam(cfg: Config, n: Node, i: nat) {
    exists p :: PointerChain(cfg, p) && p[0] == n && IsParam(PlanAt(cfg, p[|p|-1]), i)
  }

  predicate IsParam(p: Plan, i: nat) {
    p == TakeParam(i, false)
  }

  /** Below a singleton there is no parameter to lead to. */
  lemma ParamNeedsContext(cfg: Config, n: Node, i: nat)
    requires LeadsToParam(cfg, n, i)
    ensures !Clean(cfg, Moved(n, []))
  {
    hide Kids;
    var p :| PointerChain(cfg, p) && p[0] == n && IsParam(PlanAt(cfg, p[|p|-1]), i);
    MovedChain(cfg, p, []);
    var q := MovedAll(p, []);
    assert PathBetween(cfg, q, Moved(n, []), q[|q|-1]);
    assert Reaches(cfg, Moved(n, []), q[|q|-1]);
    assert PlanAt(cfg, q[|q|-1]).Stop?;
  }

  // ---- What is passed ----

  /** What a request brings when it is answered in a context: the singleton or the parameter
      that it leads to, if it leads to one. */
  ghost predicate Passed(cfg: Config, st: State, n: Node, params: seq<Value>, v: Value) {
    && Clean(cfg, n)
    && (forall k :: LeadsTo(cfg, n, k) ==> k in st.made && v == st.made[k])
    && (forall i: nat :: LeadsToParam(cfg, n, i) ==> i < |params| && v == params[i])
  }

  lemma EvalPassed(cfg: Config, sched: Schedule, n: Node, params: seq<Value>, st: State, fuel: nat)
    requires |params| == |n.formals| && Inv(cfg, st) && Below(params, |st.heap|)
    requires Eval(cfg, sched, n, params, st, fuel).Ok?
    ensures var r := Eval(cfg, sched, n, params, st, fuel); Passed(cfg, r.st, n, params, r.v)
  {
    hide PlanOf, Eval, Inv, Clean, Acyclic, LeadsTo, LeadsToParam;
    var r := Eval(cfg, sched, n, params, st, fuel);
    SucceedsExactly(cfg, sched, n, params, st);
    forall k | LeadsTo(cfg, n, k) ensures k in r.st.made && r.v == r.st.made[k] {
      LeadsToSingleton(cfg, sched, n, params, st, fuel, k);
    }
    forall i: nat | LeadsToParam(cfg, n, i) ensures i < |params| && r.v == params[i] {
      LeadsToParameter(cfg, sched, n, params, st, fuel, i);
    }
  }

  lemma LeadsToParameter(cfg: Config, sched: Schedule, n: Node, params: seq<Value>, st: State, fuel: nat, i: nat)
    requires |params| == |n.formals| && Eval(cfg, sched, n, params, st, fuel).Ok? && LeadsToParam(cfg, n, i)
    ensures i < |params| && Eval(cfg, sched, n, params, st, fuel).v == params[i]
  {
    hide PlanOf, PlanAt, Eval, Kids, PointerBinding;
    var p :| PointerChain(cfg, p) && p[0] == n && IsParam(PlanAt(cfg, p[|p|-1]), i);
    ChainKeepsPointer(cfg, sched, p, params, st, fuel);
    ParamStep(cfg, sched, p[|p|-1], params, st, fuel + 1 - |p|, i);
  }

  lemma ParamStep(cfg: Config, sched: Schedule, n: Node, params: seq<Value>, st: State, fuel: nat, i: nat)
    requires |params| == |n.formals| && Eval(cfg, sched, n, params, st, fuel).Ok? && IsParam(PlanAt(cfg, n), i)
    ensures i < |params| && Eval(cfg, sched, n, params, st, fuel).v == params[i]
  {
    hide PlanOf;
  }

  lemma PassedStable(cfg: Config, st: State, later: State, n: Node, params: seq<Value>, v: Value)
    requires Passed(cfg, st, n, params, v) && Extends(st, later)
    ensures Passed(cfg, later, n, params, v)
  {
    hide LeadsTo, LeadsToParam, Clean;
  }

  // ---- What cells are built from ----

  /** Every declared argument of the cell was answered in this context. */
  ghost predicate BuiltIn(cfg: Config, st: State, formals: seq<Formal>, params: seq<Value>, c: Cell) {
    var args := DeclaredArgs(cfg, c.maker);
    && |c.deps| == |args|
    && forall j :: 0 <= j < |args| ==> Passed(cfg, st, Node(formals, args[j]), params, c.deps[j])
  }

  /** A cell is built in the context of its request, or below a singleton in an empty one. */
  ghost predicate Built(cfg: Config, st: State, formals: seq<Formal>, params: seq<Value>, c: Cell) {
    BuiltIn(cfg, st, formals, params, c) || BuiltIn(cfg, st, [], [], c)
  }

  lemma BuiltStable(cfg: Config, st: State, later: State, formals: seq<Formal>, params: seq<Value>, c: Cell)
    requires Built(cfg, st, formals, params, c) && Extends(st, later)
    ensures Built(cfg, later, formals, params, c)
  {
    hide Passed, Extends;
    var args := DeclaredArgs(cfg, c.maker);
    forall fs, vs, j | BuiltIn(cfg, st, fs, vs, c) && 0 <= j < |args|
      ensures Passed(cfg, later, Node(fs, args[j]), vs, c.deps[j])
    {
      PassedStable(cfg, st, later, Node(fs, args[j]), vs, c.deps[j]);
    }
  }

  ghost predicate NewCellsBuilt(cfg: Config, st: State, later: State, formals: seq<Formal>, params: seq<Value>) {
    forall a :: |st.heap| <= a < |later.heap| ==> Built(cfg, later, formals, params, later.heap[a])
  }

  lemma NewCellsAppend(cfg: Config, a: State, b: State, c: State, formals: seq<Formal>, params: seq<Value>)
    requires NewCellsBuilt(cfg, a, b, formals, params) && NewCellsBuilt(cfg, b, c, formals, params)
    requires Extends(b, c)
    ensures NewCellsBuilt(cfg, a, c, formals, params)
  {
    hide Built;
    forall i | |a.heap| <= i < |c.heap| ensures Built(cfg, c, formals, params, c.heap[i]) {
      if i < |b.heap| {
        assert c.heap[i] == b.heap[i];
        BuiltStable(cfg, b, c, formals, params, b.heap[i]);
      }
    }
  }

  lemma InvokeDeclares(cfg: Config, n: Node)
    requires WellBound(cfg) && PlanAt(cfg, n).Invoke?
    ensures DeclaredArgs(cfg, PlanAt(cfg, n).maker) == PlanAt(cfg, n).args
  {
    if KeyOf(n.req) in cfg.table { assert WellBoundEntry(cfg, KeyOf(n.req), cfg.table[KeyOf(n.req)]); }
  }

  /** The first request for a singleton is its creation, and one record on top. */
  lemma FirstRequest(cfg: Config, sched: Schedule, n: Node, params: seq<Value>, st: State, fuel: nat)
    requires |params| == |n.formals| && Inv(cfg, st) && PlanAt(cfg, n).Once? && PlanAt(cfg, n).key !in st.made
    requires Eval(cfg, sched, n, params, st, fuel).Ok?
    ensures fuel > 0 && PlanAt(cfg, n).key in cfg.table && cfg.table[PlanAt(cfg, n).key].Singleton?
    ensures var k := PlanAt(cfg, n).key; var r := Eval(cfg, sched, InnerNode(cfg, k), [], st, fuel - 1);
      && r.Ok? && k !in r.st.made && Inv(cfg, r.st) && Extends(st, r.st)
      && Eval(cfg, sched, n, params, st, fuel) == Ok(CopyValue(PlanAt(cfg, n).copy, r.v), Created(k, r.v, r.st))
  {
    hide PlanOf, Kids, Denote, Inv, Needs;
    SuccessMeans(cfg, sched, n, params, st, fuel);
    OnceIsSingleton(cfg, n);
    OneKid(cfg, sched, n, params, st, fuel);
    var k := PlanAt(cfg, n).key;
    EvalAgrees(cfg, sched, InnerNode(cfg, k), [], st, fuel - 1);
    CreationIsNotReentrant(cfg, k);
  }

  lemma {:induction false} EvalBuilds(cfg: Config, sched: Schedule, n: Node, params: seq<Value>, st: State, fuel: nat)
    requires |params| == |n.formals| && WellBound(cfg) && Inv(cfg, st) && Below(params, |st.heap|)
    requires Eval(cfg, sched, n, params, st, fuel).Ok?
    ensures NewCellsBuilt(cfg, st, Eval(cfg, sched, n, params, st, fuel).st, n.formals, params)
    decreases fuel, 0
  {
    hide PlanOf, Kids, Inv, WellBound, Eval, Finish, Built, Passed;
    var p := PlanAt(cfg, n);
    var r := Eval(cfg, sched, n, params, st, fuel);
    if p.Once? && p.key in st.made {
      CachedStep(cfg, sched, n, params, st, fuel);
    } else if p.Once? {
      FirstRequest(cfg, sched, n, params, st, fuel);
      var inner := InnerNode(cfg, p.key);
      EvalBuilds(cfg, sched, inner, [], st, fuel - 1);
      var mid := Eval(cfg, sched, inner, [], st, fuel - 1).st;
      forall a | |st.heap| <= a < |r.st.heap| ensures Built(cfg, r.st, n.formals, params, r.st.heap[a]) {
        BuiltStable(cfg, mid, r.st, [], [], mid.heap[a]);
        BuiltAnywhere(cfg, r.st, n.formals, params, r.st.heap[a]);
      }
    } else {
      PlainStep(cfg, sched, n, params, st, fuel);
      var kids := Kids(cfg, n);
      var order := ArgumentOrder(sched, n, st.heap, |kids|);
      EvalAllBuilds(cfg, sched, kids, n.formals, params, order, st, fuel - 1);
      var all := EvalAll(cfg, sched, kids, params, order, st, fuel - 1);
      FinishBuilds(cfg, n, params, Arguments(all.vs, |kids|), st, all.st);
    }
  }

  lemma BuiltAnywhere(cfg: Config, st: State, formals: seq<Formal>, params: seq<Value>, c: Cell)
    requires Built(cfg, st, [], [], c)
    ensures Built(cfg, st, formals, params, c)
  {
  }

  lemma FinishBuilds(cfg: Config, n: Node, params: seq<Value>, vs: seq<Value>, st: State, mid: State)
    requires |params| == |n.formals| && WellBound(cfg)
    requires !PlanAt(cfg, n).Stop? && !PlanAt(cfg, n).Once? && |vs| == |Kids(cfg, n)|
    requires NewCellsBuilt(cfg, st, mid, n.formals, params)
    requires forall i :: 0 <= i < |vs| ==> Passed(cfg, mid, Kids(cfg, n)[i], params, vs[i])
    ensures NewCellsBuilt(cfg, st, Finish(PlanAt(cfg, n), params, vs, mid).st, n.formals, params)
  {
    hide PlanOf, Passed, WellBound;
    var p := PlanAt(cfg, n);
    var later := Finish(p, params, vs, mid).st;
    assert Extends(mid, later);
    forall a | |mid.heap| <= a < |later.heap| ensures Built(cfg, later, n.formals, params, later.heap[a]) {
      InvokeDeclares(cfg, n);
      forall j | 0 <= j < |p.args| ensures Passed(cfg, later, Node(n.formals, p.args[j]), params, vs[j]) {
        assert Kids(cfg, n)[j] == Node(n.formals, p.args[j]);
        PassedStable(cfg, mid, later, Node(n.formals, p.args[j]), params, vs[j]);
      }
    }
    NewCellsAppend(cfg, st, mid, later, n.formals, params);
  }

  lemma {:induction false} EvalAllBuilds(cfg: Config, sched: Schedule, ns: seq<Node>, formals: seq<Formal>,
                                         params: seq<Value>, todo: seq<nat>, st: State, fuel: nat)
    requires |formals| == |params| && (forall i :: 0 <= i < |ns| ==> ns[i].formals == formals)
    requires forall i :: 0 <= i < |todo| ==> todo[i] < |ns|
    requires WellBound(cfg) && Inv(cfg, st) && Below(params, |st.heap|)
    requires EvalAll(cfg, sched, ns, params, todo, st, fuel).AllOk?
    ensures var r := EvalAll(cfg, sched, ns, params, todo, st, fuel);
      && Inv(cfg, r.st) && Extends(st, r.st) && NewCellsBuilt(cfg, st, r.st, formals, params)
      && forall x :: x in todo ==> Passed(cfg, r.st, ns[x], params, r.vs[x])
    decreases fuel, 1 + |todo|
  {
    hide PlanOf, Kids, Eval, Inv, WellBound, Built, Passed, Agrees, CreatedExactly;
    if todo != [] {
      var first := todo[0];
      EvalAgrees(cfg, sched, ns[first], params, st, fuel);
      EvalPassed(cfg, sched, ns[first], params, st, fuel);
      EvalBuilds(cfg, sched, ns[first], params, st, fuel);
      var r1 := Eval(cfg, sched, ns[first], params, st, fuel);
      EvalAllBuilds(cfg, sched, ns, formals, params, todo[1..], r1.st, fuel);
      var rest := EvalAll(cfg, sched, ns, params, todo[1..], r1.st, fuel);
      NewCellsAppend(cfg, st, r1.st, rest.st, formals, params);
      PassedStable(cfg, r1.st, rest.st, ns[first], params, r1.v);
      var all := EvalAll(cfg, sched, ns, params, todo, st, fuel);
      assert all.vs == rest.vs[first := r1.v] && all.st == rest.st;
      forall x | x in todo ensures Passed(cfg, all.st, ns[x], params, all.vs[x]) {
        if x != first { assert x in todo[1..]; }
      }
    }
  }

  // ---- Singletons are shared ----

  /** Every declared argument that leads to a singleton is that singleton's one object. */
  ghost predicate SharesSingletons(cfg: Config, st: State, c: Cell) {
    var args := DeclaredArgs(cfg, c.maker);
    && |c.deps| == |args|
    && forall j, k :: 0 <= j < |args| && LeadsTo(cfg, Node([], args[j]), k) ==> k in st.made && c.deps[j] == st.made[k]
  }

  lemma BuiltShares(cfg: Config, st: State, formals: seq<Formal>, params: seq<Value>, c: Cell)
    requires Built(cfg, st, formals, params, c)
    ensures SharesSingletons(cfg, st, c)
  {
    hide LeadsTo, LeadsToParam, Clean;
    var args := DeclaredArgs(cfg, c.maker);
    forall fs, vs, j, k | BuiltIn(cfg, st, fs, vs, c) && 0 <= j < |args| && LeadsTo(cfg, Node([], args[j]), k)
      ensures k in st.made && c.deps[j] == st.made[k]
    {
      LeadsToAnywhere(cfg, Node([], args[j]), fs, k);
      assert Passed(cfg, st, Node(fs, args[j]), vs, c.deps[j]);
    }
  }

  lemma SharesStable(cfg: Config, st: State, later: State, c: Cell)
    requires SharesSingletons(cfg, st, c) && Extends(st, later)
    ensures SharesSingletons(cfg, later, c)
  {
    hide LeadsTo;
  }

  /** After every run, all constructors and providers that asked for one singleton, at any depth
      of any call, directly or through bindings, hold one object: the one in the cache. */
  lemma {:induction false} SharedDependencies(cfg: Config, steps: seq<Step>)
    requires WellBound(cfg) && RunOf(cfg, steps).Running?
    ensures var st := RunOf(cfg, steps).st; forall c :: c in st.heap ==> SharesSingletons(cfg, st, c)
  {
    hide PlanOf, Eval, Inv, WellBound, SharesSingletons, Built, Agrees, CreatedExactly;
    if steps != [] {
      var s := steps[|steps|-1];
      var before := steps[..|steps|-1];
      SharedDependencies(cfg, before);
      ReachableInv(cfg, before);
      var st, later := RunOf(cfg, before).st, RunOf(cfg, steps).st;
      EvalAgrees(cfg, s.sched, s.n, s.params, st, s.fuel);
      EvalBuilds(cfg, s.sched, s.n, s.params, st, s.fuel);
      forall c | c in later.heap ensures SharesSingletons(cfg, later, c) {
        var a :| 0 <= a < |later.heap| && later.heap[a] == c;
        if a < |st.heap| {
          assert st.heap[a] == c;
          SharesStable(cfg, st, later, c);
        } else {
          BuiltShares(cfg, later, s.n.formals, s.params, c);
        }
      }
    }
  }

  // ---- Factory parameters are passed on ----

  /** Every declared argument that leads to a parameter is the value passed for it. */
  ghost predicate TakesParams(cfg: Config, formals: seq<Formal>, params: seq<Value>, c: Cell) {
    var args := DeclaredArgs(cfg, c.maker);
    && |c.deps| == |args|
    && forall j, i: nat :: 0 <= j < |args| && LeadsToParam(cfg, Node(formals, args[j]), i) ==>
         i < |params| && c.deps[j] == params[i]
  }

  lemma BuiltTakes(cfg: Config, st: State, formals: seq<Formal>, params: seq<Value>, c: Cell)
    requires Built(cfg, st, formals, params, c)
    ensures TakesParams(cfg, formals, params, c)
  {
    hide LeadsToParam;
    var args := DeclaredArgs(cfg, c.maker);
    assert |c.deps| == |args|;
    forall j, i: nat | 0 <= j < |args| && LeadsToParam(cfg, Node(formals, args[j]), i)
      ensures i < |params| && c.deps[j] == params[i]
    {
      SlotTakes(cfg, st, formals, params, c, j, i);
    }
  }

  lemma SlotTakes(cfg: Config, st: State, formals: seq<Formal>, params: seq<Value>, c: Cell, j: nat, i: nat)
    requires Built(cfg, st, formals, params, c) && j < |DeclaredArgs(cfg, c.maker)|
    requires LeadsToParam(cfg, Node(formals, DeclaredArgs(cfg, c.maker)[j]), i)
    ensures i < |params| && c.deps[j] == params[i]
  {
    hide LeadsTo, LeadsToParam, Clean, DeclaredArgs;
    var req := DeclaredArgs(cfg, c.maker)[j];
    ParamNeedsContext(cfg, Node(formals, req), i);
    assert Passed(cfg, st, Node([], req), [], c.deps[j]) || Passed(cfg, st, Node(formals, req), params, c.deps[j]);
  }

  /** Every object built during a call, however deep below it, holds the very values that were
      passed to the call, wherever it asked for one; and so does the caller. */
  lemma FactoryParameters(cfg: Config, steps: seq<Step>, t: nat)
    requires WellBound(cfg) && RunOf(cfg, steps).Running? && t < |steps|
    ensures RunOf(cfg, steps[..t]).Running? && RunOf(cfg, steps[..t+1]).Running?
    ensures |RunOf(cfg, steps).results| == |steps|
    ensures var st, mid, later := RunOf(cfg, steps).st, RunOf(cfg, steps[..t]).st, RunOf(cfg, steps[..t+1]).st;
      && |later.heap| <= |st.heap|
      && forall a :: |mid.heap| <= a < |later.heap| ==> TakesParams(cfg, steps[t].n.formals, steps[t].params, st.heap[a])
    ensures forall i: nat :: LeadsToParam(cfg, steps[t].n, i) ==>
      i < |steps[t].params| && RunOf(cfg, steps).results[t] == steps[t].params[i]
  {
    hide PlanOf, Eval, Inv, WellBound, RunOf, Built, TakesParams, LeadsToParam, LeadsTo, Clean;
    var s := steps[t];
    StepOfRun(cfg, steps, t);
    RunPrefix(cfg, steps, t + 1);
    ReachableInv(cfg, steps[..t]);
    var mid, later := RunOf(cfg, steps[..t]).st, RunOf(cfg, steps[..t+1]).st;
    EvalBuilds(cfg, s.sched, s.n, s.params, mid, s.fuel);
    EvalPassed(cfg, s.sched, s.n, s.params, mid, s.fuel);
    forall a | |mid.heap| <= a < |later.heap|
      ensures TakesParams(cfg, s.n.formals, s.params, RunOf(cfg, steps).st.heap[a])
    {
      BuiltTakes(cfg, later, s.n.formals, s.params, later.heap[a]);
    }
  }

  // ---- Everything else is an object of its own ----

  /** The `j`-th argument of the `a`-th cell was asked for by a request that ends in a constructor. */
  ghost predicate NewSlot(cfg: Config, heap: seq<Cell>, a: nat, j: nat) {
    && a < |heap| && j < |heap[a].deps| && j < |DeclaredArgs(cfg, heap[a].maker)|
    && LeadsToNew(cfg, Node([], DeclaredArgs(cfg, heap[a].maker)[j]))
  }

  /** No such argument is shared with another one, nor with a singleton. */
  ghost predicate Separate(cfg: Config, st: State) {
    && (forall a: nat, j: nat :: NewSlot(cfg, st.heap, a, j) ==> Unique(cfg, st, a, j))
  }

  ghost predicate Unique(cfg: Config, st: State, a: nat, j: nat)
    requires NewSlot(cfg, st.heap, a, j)
  {
    var v := st.heap[a].deps[j];
    && v.Object?
    && (forall b: nat, l: nat :: NewSlot(cfg, st.heap, b, l) && st.heap[b].deps[l] == v ==> b == a && l == j)
    && (forall k :: k in st.made ==> st.made[k] != v)
  }

  /** No such argument and no singleton is this object. */
  ghost predicate Unheld(cfg: Config, st: State, v: Value) {
    && v.Object?
    && (forall a: nat, j: nat :: NewSlot(cfg, st.heap, a, j) ==> st.heap[a].deps[j] != v)
    && (forall k :: k in st.made ==> st.made[k] != v)
  }

  ghost predicate OwnObject(cfg: Config, st: State, later: State, v: Value) {
    Unheld(cfg, later, v) && |st.heap| <= v.addr < |later.heap|
  }

  /** What is new in the later state are objects that the earlier one does not have. */
  ghost predicate GrowsApart(cfg: Config, st: State, later: State) {
    && Extends(st, later)
    && (forall a: nat, j: nat :: NewSlot(cfg, later.heap, a, j) && a >= |st.heap| ==>
          later.heap[a].deps[j].Object? && later.heap[a].deps[j].addr >= |st.heap|)
    && (forall k :: k in later.made && k !in st.made ==> later.made[k].Object? && later.made[k].addr >= |st.heap|)
  }

  lemma OldSlot(cfg: Config, st: State, later: State, a: nat, j: nat)
    requires Extends(st, later) && a < |st.heap|
    ensures later.heap[a] == st.heap[a] && (NewSlot(cfg, later.heap, a, j) <==> NewSlot(cfg, st.heap, a, j))
  {
  }

  lemma GrowsApartTransitive(cfg: Config, a: State, b: State, c: State)
    requires GrowsApart(cfg, a, b) && GrowsApart(cfg, b, c)
    ensures GrowsApart(cfg, a, c)
  {
    hide LeadsToNew, DeclaredArgs;
    forall i: nat, j: nat | NewSlot(cfg, c.heap, i, j) && i >= |a.heap|
      ensures c.heap[i].deps[j].Object? && c.heap[i].deps[j].addr >= |a.heap|
    {
      if i < |b.heap| { OldSlot(cfg, b, c, i, j); }
    }
  }

  lemma UnheldStays(cfg: Config, st: State, later: State, v: Value)
    requires Unheld(cfg, st, v) && v.addr < |st.heap| && GrowsApart(cfg, st, later)
    ensures Unheld(cfg, later, v)
  {
    hide LeadsToNew, DeclaredArgs;
    forall a: nat, j: nat | NewSlot(cfg, later.heap, a, j) ensures later.heap[a].deps[j] != v {
      if a < |st.heap| { OldSlot(cfg, st, later, a, j); }
    }
  }

  /** A request that ends in a constructor is one, or passes on what its one sub-request brings. */
  lemma NewUnfolds(cfg: Config, n: Node)
    requires LeadsToNew(cfg, n)
    ensures IsNew(PlanAt(cfg, n)) ||
      (PointerBinding(PlanAt(cfg, n)) && |Kids(cfg, n)| == 1 && LeadsToNew(cfg, Kids(cfg, n)[0]))
  {
    hide PlanOf;
    var p :| PointerChain(cfg, p) && p[0] == n && IsNew(PlanAt(cfg, p[|p|-1]));
    if |p| > 1 {
      assert PointerBinding(PlanAt(cfg, p[0])) && p[1] in Kids(cfg, p[1-1]);
      var q := p[1..];
      SubPath(cfg, p, 1, |p|);
      assert PointerChain(cfg, q) by {
        forall i | 0 <= i < |q| - 1 ensures PointerBinding(PlanAt(cfg, q[i])) {
          assert PointerBinding(PlanAt(cfg, p[i+1]));
        }
      }
      assert q[0] == Kids(cfg, n)[0] && IsNew(PlanAt(cfg, q[|q|-1]));
    }
  }

  lemma CreationIsNew(cfg: Config, k: Key)
    requires WellBound(cfg) && k in cfg.table && cfg.table[k].Singleton?
    requires !PlanAt(cfg, InnerNode(cfg, k)).Stop?
    ensures LeadsToNew(cfg, InnerNode(cfg, k))
  {
    InnerIsConstructed(cfg, k);
    assert PointerChain(cfg, [InnerNode(cfg, k)]) && IsNew(PlanAt(cfg, [InnerNode(cfg, k)][0]));
  }

  /** Recording a singleton that nothing else holds. */
  lemma RecordSeparates(cfg: Config, st: State, mid: State, k: Key, v: Value)
    requires Separate(cfg, mid) && GrowsApart(cfg, st, mid) && OwnObject(cfg, st, mid, v) && k !in mid.made
    ensures Separate(cfg, Created(k, v, mid)) && GrowsApart(cfg, st, Created(k, v, mid))
  {
    hide NewSlot;
  }

  /** The arguments of one maker, as resolved: each of its own if it ends in a constructor. */
  ghost predicate OwnArguments(cfg: Config, st: State, mid: State, ns: seq<Node>, vs: map<nat, Value>, todo: seq<nat>)
    requires forall x :: x in todo ==> x < |ns| && x in vs
  {
    && (forall x :: x in todo && LeadsToNew(cfg, ns[x]) ==> OwnObject(cfg, st, mid, vs[x]))
    && (forall x, y :: x in todo && y in todo && x != y && LeadsToNew(cfg, ns[x]) && LeadsToNew(cfg, ns[y]) ==>
          vs[x] != vs[y])
  }

  lemma {:induction false} EvalSeparates(cfg: Config, sched: Schedule, n: Node, params: seq<Value>, st: State, fuel: nat)
    requires |params| == |n.formals| && WellBound(cfg) && Inv(cfg, st) && Below(params, |st.heap|)
    requires Separate(cfg, st) && Eval(cfg, sched, n, params, st, fuel).Ok?
    ensures var r := Eval(cfg, sched, n, params, st, fuel);
      && Separate(cfg, r.st) && GrowsApart(cfg, st, r.st)
      && (LeadsToNew(cfg, n) ==> OwnObject(cfg, st, r.st, r.v))
    decreases fuel, 0
  {
    hide PlanOf, Kids, Inv, WellBound, Eval, Finish, Separate, GrowsApart, OwnObject, LeadsToNew, NewSlot;
    var p := PlanAt(cfg, n);
    if LeadsToNew(cfg, n) { NewUnfolds(cfg, n); }
    if p.Once? && p.key in st.made {
      CachedStep(cfg, sched, n, params, st, fuel);
      NothingGrows(cfg, st);
    } else if p.Once? {
      FirstRequest(cfg, sched, n, params, st, fuel);
      var inner := InnerNode(cfg, p.key);
      EvalSeparates(cfg, sched, inner, [], st, fuel - 1);
      SuccessMeans(cfg, sched, inner, [], st, fuel - 1);
      CreationIsNew(cfg, p.key);
      var r := Eval(cfg, sched, inner, [], st, fuel - 1);
      RecordSeparates(cfg, st, r.st, p.key, r.v);
    } else {
      PlainStep(cfg, sched, n, params, st, fuel);
      var kids := Kids(cfg, n);
      var order := ArgumentOrder(sched, n, st.heap, |kids|);
      EvalAllSeparates(cfg, sched, kids, params, order, st, fuel - 1);
      var all := EvalAll(cfg, sched, kids, params, order, st, fuel - 1);
      if p.Invoke? {
        InvokeSeparates(cfg, n, params, all.vs, order, st, all.st);
      } else {
        PassesOn(cfg, n, params, all.vs, order, st, all.st);
      }
    }
  }

  lemma NothingGrows(cfg: Config, st: State)
    ensures GrowsApart(cfg, st, st)
  {
  }

  /** A step that allocates nothing. */
  lemma PassesOn(cfg: Config, n: Node, params: seq<Value>, vs: map<nat, Value>, order: seq<nat>, st: State, mid: State)
    requires |params| == |n.formals| && !PlanAt(cfg, n).Stop? && !PlanAt(cfg, n).Once? && !PlanAt(cfg, n).Invoke?
    requires forall i: nat :: i < |Kids(cfg, n)| ==> i in order && i in vs
    requires forall x :: x in order ==> x < |Kids(cfg, n)| && x in vs
    requires OwnArguments(cfg, st, mid, Kids(cfg, n), vs, order)
    ensures var r := Finish(PlanAt(cfg, n), params, Arguments(vs, |Kids(cfg, n)|), mid);
      r.st == mid && (LeadsToNew(cfg, n) ==> OwnObject(cfg, st, mid, r.v))
  {
    hide PlanOf, Kids, OwnObject, LeadsToNew;
    if LeadsToNew(cfg, n) { NewUnfolds(cfg, n); }
  }

  /** A maker's new cell holds its arguments, and nothing holds the cell yet. */
  lemma InvokeSeparates(cfg: Config, n: Node, params: seq<Value>, vs: map<nat, Value>, order: seq<nat>, st: State, mid: State)
    requires |params| == |n.formals| && WellBound(cfg) && PlanAt(cfg, n).Invoke?
    requires Inv(cfg, mid) && Separate(cfg, mid) && GrowsApart(cfg, st, mid)
    requires forall i: nat :: i < |Kids(cfg, n)| ==> i in order && i in vs && Top(vs[i]) <= |mid.heap|
    requires forall x :: x in order ==> x < |Kids(cfg, n)| && x in vs
    requires OwnArguments(cfg, st, mid, Kids(cfg, n), vs, order)
    ensures var r := Finish(PlanAt(cfg, n), params, Arguments(vs, |Kids(cfg, n)|), mid);
      && Separate(cfg, r.st) && GrowsApart(cfg, st, r.st)
      && (LeadsToNew(cfg, n) ==> OwnObject(cfg, st, r.st, r.v))
  {
    hide PlanOf, LeadsToNew, WellBound;
    var p := PlanAt(cfg, n);
    var deps := Arguments(vs, |Kids(cfg, n)|);
    var later := Finish(p, params, deps, mid).st;
    var last := |mid.heap|;
    assert later.heap[last] == Cell(p.maker, deps);
    InvokeDeclares(cfg, n);
    forall j: nat | NewSlot(cfg, later.heap, last, j)
      ensures j in order && LeadsToNew(cfg, Kids(cfg, n)[j]) && OwnObject(cfg, st, mid, deps[j])
    {
      assert Kids(cfg, n)[j] == Node(n.formals, p.args[j]);
      LeadsToNewAnywhere(cfg, Node([], p.args[j]), n.formals);
    }
    OneMoreCell(cfg, st, mid, later);
    if LeadsToNew(cfg, n) { NewUnfolds(cfg, n); LastIsUnheld(cfg, mid, later); }
  }

  lemma OneMoreCell(cfg: Config, st: State, mid: State, later: State)
    requires Separate(cfg, mid) && GrowsApart(cfg, st, mid)
    requires |later.heap| == |mid.heap| + 1 && later == mid.(heap := mid.heap + [later.heap[|mid.heap|]])
    requires forall j: nat :: NewSlot(cfg, later.heap, |mid.heap|, j) ==>
      OwnObject(cfg, st, mid, later.heap[|mid.heap|].deps[j])
    requires forall i: nat, j: nat ::
      NewSlot(cfg, later.heap, |mid.heap|, i) && NewSlot(cfg, later.heap, |mid.heap|, j) && i != j ==>
        later.heap[|mid.heap|].deps[i] != later.heap[|mid.heap|].deps[j]
    ensures Separate(cfg, later) && GrowsApart(cfg, st, later)
  {
    hide LeadsToNew, DeclaredArgs;
    var last := |mid.heap|;
    forall a: nat, j: nat | NewSlot(cfg, later.heap, a, j) ensures Unique(cfg, later, a, j) {
      if a < last { OldSlot(cfg, mid, later, a, j); assert Unique(cfg, mid, a, j); }
      forall b: nat, l: nat | NewSlot(cfg, later.heap, b, l) && later.heap[b].deps[l] == later.heap[a].deps[j]
        ensures b == a && l == j
      {
        if b < last { OldSlot(cfg, mid, later, b, l); }
      }
    }
    forall a: nat, j: nat | NewSlot(cfg, later.heap, a, j) && a >= |st.heap|
      ensures later.heap[a].deps[j].Object? && later.heap[a].deps[j].addr >= |st.heap|
    {
      if a < last { OldSlot(cfg, mid, later, a, j); }
    }
  }

  lemma LastIsUnheld(cfg: Config, mid: State, later: State)
    requires Inv(cfg, mid) && HeapOk(later.heap) && later.made == mid.made && |later.heap| == |mid.heap| + 1
    ensures Unheld(cfg, later, Object(|mid.heap|))
  {
    hide LeadsToNew, DeclaredArgs, Den, Needs, Topological;
    forall k | k in later.made ensures later.made[k] != Object(|mid.heap|) {
      assert CacheAgrees(cfg, mid, k);
    }
    forall a: nat, j: nat | NewSlot(cfg, later.heap, a, j) ensures later.heap[a].deps[j] != Object(|mid.heap|) {
      assert Below(later.heap[a].deps, a);
    }
  }

  lemma {:induction false} EvalAllSeparates(cfg: Config, sched: Schedule, ns: seq<Node>, params: seq<Value>,
                                            todo: seq<nat>, st: State, fuel: nat)
    requires SameShape(ns, params)
    requires forall i :: 0 <= i < |todo| ==> todo[i] < |ns|
    requires WellBound(cfg) && Inv(cfg, st) && Below(params, |st.heap|) && Separate(cfg, st)
    requires EvalAll(cfg, sched, ns, params, todo, st, fuel).AllOk?
    ensures var r := EvalAll(cfg, sched, ns, params, todo, st, fuel);
      && Inv(cfg, r.st) && Separate(cfg, r.st) && GrowsApart(cfg, st, r.st)
      && (forall x :: x in todo ==> Top(r.vs[x]) <= |r.st.heap|)
      && OwnArguments(cfg, st, r.st, ns, r.vs, todo)
    decreases fuel, 1 + |todo|
  {
    hide PlanOf, Kids, Eval, Inv, WellBound, Separate, LeadsToNew, NewSlot, CreatedExactly, Unfold, Den, GrowsApart, OwnObject;
    if todo == [] {
      NothingGrows(cfg, st);
    } else {
      var first := todo[0];
      EvalAgrees(cfg, sched, ns[first], params, st, fuel);
      EvalSeparates(cfg, sched, ns[first], params, st, fuel);
      var r1 := Eval(cfg, sched, ns[first], params, st, fuel);
      EvalAllSeparates(cfg, sched, ns, params, todo[1..], r1.st, fuel);
      var rest := EvalAll(cfg, sched, ns, params, todo[1..], r1.st, fuel);
      var all := EvalAll(cfg, sched, ns, params, todo, st, fuel);
      assert all.vs == rest.vs[first := r1.v] && all.st == rest.st;
      GrowsApartTransitive(cfg, st, r1.st, rest.st);
      HeapGrows(cfg, r1.st, rest.st);
      forall x | x in todo ensures Top(all.vs[x]) <= |rest.st.heap| {
        if x != first { assert x in todo[1..]; }
      }
      OwnMore(cfg, st, r1.st, rest.st, ns, rest.vs, todo, r1.v);
    }
  }

  lemma HeapGrows(cfg: Config, st: State, later: State)
    requires GrowsApart(cfg, st, later)
    ensures |st.heap| <= |later.heap|
  {
  }

  lemma OwnMore(cfg: Config, st: State, mid: State, later: State, ns: seq<Node>, vs: map<nat, Value>, todo: seq<nat>, v: Value)
    requires todo != [] && todo[0] < |ns| && (forall x :: x in todo[1..] ==> x < |ns| && x in vs)
    requires GrowsApart(cfg, st, mid) && GrowsApart(cfg, mid, later)
    requires LeadsToNew(cfg, ns[todo[0]]) ==> OwnObject(cfg, st, mid, v)
    requires OwnArguments(cfg, mid, later, ns, vs, todo[1..])
    ensures forall x :: x in todo ==> x < |ns| && x in vs[todo[0] := v]
    ensures OwnArguments(cfg, st, later, ns, vs[todo[0] := v], todo)
  {
    hide LeadsToNew, NewSlot;
    assert forall x :: x in todo <==> x == todo[0] || x in todo[1..];
    if LeadsToNew(cfg, ns[todo[0]]) { UnheldStays(cfg, mid, later, v); }
  }

  /** After every run, an argument that was asked for by a request ending in a constructor is an
      object of its own: no two such arguments, no singleton, and no result of a call that ends
      in a constructor are the same object as any other. */
  lemma {:induction false} OwnObjects(cfg: Config, steps: seq<Step>)
    requires WellBound(cfg) && RunOf(cfg, steps).Running?
    ensures var run := RunOf(cfg, steps);
      && Separate(cfg, run.st) && |run.results| == |steps|
      && forall t :: 0 <= t < |steps| && LeadsToNew(cfg, steps[t].n) ==>
           Unheld(cfg, run.st, run.results[t]) && run.results[t].addr < |run.st.heap|
  {
    hide PlanOf, Eval, Inv, WellBound, Separate, GrowsApart, NewSlot, LeadsToNew;
    if steps == [] {
      StartIsSeparate(cfg);
    } else {
      var last := |steps| - 1;
      var s := steps[last];
      var before := steps[..last];
      OwnObjects(cfg, before);
      ReachableInv(cfg, before);
      var was, run := RunOf(cfg, before), RunOf(cfg, steps);
      EvalSeparates(cfg, s.sched, s.n, s.params, was.st, s.fuel);
      EvalAgrees(cfg, s.sched, s.n, s.params, was.st, s.fuel);
      forall t | 0 <= t < |steps| && LeadsToNew(cfg, steps[t].n)
        ensures Unheld(cfg, run.st, run.results[t]) && run.results[t].addr < |run.st.heap|
      {
        if t < last {
          assert before[t] == steps[t] && run.results[t] == was.results[t];
          UnheldStays(cfg, was.st, run.st, was.results[t]);
        }
      }
    }
  }

  /** Such arguments are made for the call that needs them: none existed before it. */
  lemma ArgumentsAreNew(cfg: Config, steps: seq<Step>, t: nat)
    requires WellBound(cfg) && RunOf(cfg, steps).Running? && t < |steps|
    ensures RunOf(cfg, steps[..t]).Running? && RunOf(cfg, steps[..t+1]).Running?
    ensures var st, mid, later := RunOf(cfg, steps).st, RunOf(cfg, steps[..t]).st, RunOf(cfg, steps[..t+1]).st;
      forall a: nat, j: nat :: |mid.heap| <= a < |later.heap| && NewSlot(cfg, st.heap, a, j) ==>
        st.heap[a].deps[j].Object? && |mid.heap| <= st.heap[a].deps[j].addr < a
  {
    hide PlanOf, Eval, Inv, WellBound, RunOf, Separate, LeadsToNew, DeclaredArgs;
    var s := steps[t];
    StepOfRun(cfg, steps, t);
    RunPrefix(cfg, steps, t + 1);
    ReachableInv(cfg, steps[..t]);
    OwnObjects(cfg, steps[..t]);
    var st, mid, later := RunOf(cfg, steps).st, RunOf(cfg, steps[..t]).st, RunOf(cfg, steps[..t+1]).st;
    EvalSeparates(cfg, s.sched, s.n, s.params, mid, s.fuel);
    ReachableInv(cfg, steps);
    HeapIsOk(cfg, st);
    forall a: nat, j: nat | |mid.heap| <= a < |later.heap| && NewSlot(cfg, st.heap, a, j)
      ensures st.heap[a].deps[j].Object? && |mid.heap| <= st.heap[a].deps[j].addr < a
    {
      OldSlot(cfg, later, st, a, j);
      assert Below(st.heap[a].deps, a);
    }
  }

  lemma HeapIsOk(cfg: Config, st: State)
    requires Inv(cfg, st)
    ensures HeapOk(st.heap)
  {
  }

  lemma StartIsSeparate(cfg: Config)
    ensures Separate(cfg, START)
  {
  }
}
