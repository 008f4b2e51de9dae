/** Whole runs: any number of `Injector::Get` and `Factory::Get` calls after creation. */
module Runs {
  import opened CppTypes
  import opened Bindings
  import opened ResolutionGraph
  import opened Resolver
  import opened ResolverCorrectness
  import opened ResolverTheorems

  /** One call from outside: a request, the values passed for the parameters of its local
      context (none for `Injector::Get`), an argument order and a stack depth. */
  datatype Step = Step(n: Node, params: seq<Value>, sched: Schedule, fuel: nat)

  /** Why the process is gone: a fatal log, a stack overflow, or a caller that passed
      something it does not have. */
  datatype Halt = ByFatal(why: Reason) | ByOverflow | ByCaller

  datatype Run = Running(st: State, results: seq<Value>) | Halted(how: Halt)

  /** Callers pass values they have, one for each parameter. */
  predicate Callable(s: Step, st: State) {
    |s.params| == |s.n.formals| && Below(s.params, |st.heap|)
  }

  function RunOf(cfg: Config, steps: seq<Step>): Run {
    if steps == [] then Running(START, [])
    else
      var s := steps[|steps|-1];
      match RunOf(cfg, steps[..|steps|-1])
      case Halted(how) => Halted(how)
      case Running(st, results) =>
        if !Callable(s, st) then Halted(ByCaller)
        else
          match Eval(cfg, s.sched, s.n, s.params, st, s.fuel)
          case Ok(v, later) => Running(later, results + [v])
          case Fatal(why) => Halted(ByFatal(why))
          case OutOfFuel => Halted(ByOverflow)
  }

  /** The invariant holds in every state that a run reaches. */
  lemma {:induction false} ReachableInv(cfg: Config, steps: seq<Step>)
    requires RunOf(cfg, steps).Running?
    ensures Inv(cfg, RunOf(cfg, steps).st) && |RunOf(cfg, steps).results| == |steps|
    ensures Below(RunOf(cfg, steps).results, |RunOf(cfg, steps).st.heap|)
  {
    hide PlanOf, Eval, Denote, Needs;
    if steps == [] {
      StartInv(cfg);
    } else {
      var s := steps[|steps|-1];
      var before := steps[..|steps|-1];
      ReachableInv(cfg, before);
      var st := RunOf(cfg, before).st;
      EvalAgrees(cfg, s.sched, s.n, s.params, st, s.fuel);
    }
  }

  /** Later calls keep everything that earlier calls made. */
  lemma {:induction false} RunPrefix(cfg: Config, steps: seq<Step>, i: nat)
    requires RunOf(cfg, steps).Running? && i <= |steps|
    ensures RunOf(cfg, steps[..i]).Running?
    ensures Extends(RunOf(cfg, steps[..i]).st, RunOf(cfg, steps).st)
    ensures RunOf(cfg, steps[..i]).results <= RunOf(cfg, steps).results
    decreases |steps|
  {
    hide PlanOf, Eval, Denote, Needs;
    if i == |steps| {
      assert steps[..i] == steps;
    } else {
      var s := steps[|steps|-1];
      var before := steps[..|steps|-1];
      assert before[..i] == steps[..i];
      RunPrefix(cfg, before, i);
      ReachableInv(cfg, before);
      EvalAgrees(cfg, s.sched, s.n, s.params, RunOf(cfg, before).st, s.fuel);
      ExtendsTransitive(RunOf(cfg, steps[..i]).st, RunOf(cfg, before).st, RunOf(cfg, steps).st);
    }
  }

  /** The `i`-th call of a run, seen on its own. */
  lemma StepOfRun(cfg: Config, steps: seq<Step>, i: nat)
    requires RunOf(cfg, steps).Running? && i < |steps|
    ensures RunOf(cfg, steps[..i]).Running? && RunOf(cfg, steps[..i+1]).Running?
    ensures Callable(steps[i], RunOf(cfg, steps[..i]).st)
    ensures |RunOf(cfg, steps).results| == |steps|
    ensures var s := steps[i];
      Eval(cfg, s.sched, s.n, s.params, RunOf(cfg, steps[..i]).st, s.fuel)
      == Ok(RunOf(cfg, steps).results[i], RunOf(cfg, steps[..i+1]).st)
  {
    hide PlanOf, Eval, Denote, Needs;
    RunPrefix(cfg, steps, i);
    RunPrefix(cfg, steps, i + 1);
    ReachableInv(cfg, steps);
    ReachableInv(cfg, steps[..i]);
    assert steps[..i+1][..i] == steps[..i];
  }

  lemma PointerBindingStep(cfg: Config, sched: Schedule, n: Node, params: seq<Value>, st: State, fuel: nat)
    requires |params| == |n.formals| && PointerBinding(PlanAt(cfg, n))
    requires Eval(cfg, sched, n, params, st, fuel).Ok?
    ensures fuel > 0 && |Kids(cfg, n)| == 1 && |params| == |Kids(cfg, n)[0].formals|
    ensures Eval(cfg, sched, n, params, st, fuel) == Eval(cfg, sched, Kids(cfg, n)[0], params, st, fuel - 1)
  {
    hide PlanOf, Kids;
    OneKid(cfg, sched, n, params, st, fuel);
  }

  lemma OnceStep(cfg: Config, sched: Schedule, n: Node, params: seq<Value>, st: State, fuel: nat, k: Key)
    requires |params| == |n.formals| && IsOnce(PlanAt(cfg, n), k)
    requires Eval(cfg, sched, n, params, st, fuel).Ok?
    ensures var r := Eval(cfg, sched, n, params, st, fuel);
      k in r.st.made && r.v == r.st.made[k]
  {
    hide PlanOf;
    if k !in st.made {
      OneKid(cfg, sched, n, params, st, fuel);
    }
  }

  // ---- Identity ----

  /** The request is answered by a plan of interest after a chain of bindings of pointers or
      references, which hand on what they get. */
  ghost predicate PointerChain(cfg: Config, p: seq<Node>) {
    && IsPath(cfg, p)
    && forall i :: 0 <= i < |p| - 1 ==> PointerBinding(PlanAt(cfg, p[i]))
  }

  predicate PointerBinding(p: Plan) {
    p.Forward? && !p.copy && (p.to.Pointer? || p.to.Reference?)
  }

  /** Bind-to-type chains of pointers hand the pointer on unchanged. */
  lemma {:induction false} ChainKeepsPointer(cfg: Config, sched: Schedule, p: seq<Node>, params: seq<Value>, st: State, fuel: nat)
    requires PointerChain(cfg, p) && |params| == |p[0].formals|
    requires Eval(cfg, sched, p[0], params, st, fuel).Ok?
    ensures |params| == |p[|p|-1].formals| && |p| <= fuel
    ensures Eval(cfg, sched, p[0], params, st, fuel) == Eval(cfg, sched, p[|p|-1], params, st, fuel + 1 - |p|)
    decreases |p|
  {
    hide PlanOf, Kids, Finish;
    if |p| > 1 {
      assert PointerBinding(PlanAt(cfg, p[0]));
      assert p[1] in Kids(cfg, p[0]);
      PointerBindingStep(cfg, sched, p[0], params, st, fuel);
      SubPath(cfg, p, 1, |p|);
      assert PointerChain(cfg, p[1..]) by {
        forall i | 0 <= i < |p[1..]| - 1 ensures PointerBinding(PlanAt(cfg, p[1..][i])) {
          assert PointerBinding(PlanAt(cfg, p[i+1]));
        }
      }
      ChainKeepsPointer(cfg, sched, p[1..], params, st, fuel - 1);
    }
  }

  /** The request reaches singleton `k` directly or through pointer bindings. */
  ghost predicate LeadsTo(cfg: Config, n: Node, k: Key) {
    exists p :: PointerChain(cfg, p) && p[0] == n && IsOnce(PlanAt(cfg, p[|p|-1]), k)
  }

  predicate IsOnce(p: Plan, k: Key) {
    p.Once? && p.key == k && !p.copy
  }

  /** A constructor or a user provider is called. */
  predicate IsInvoke(p: Plan) {
    p.Invoke? && !p.copy
  }

  /** The request ends, through pointer bindings, in a constructor of the container's calling.
      A user provider may hand out what it likes. */
  ghost predicate LeadsToNew(cfg: Config, n: Node) {
    exists p :: PointerChain(cfg, p) && p[0] == n && IsNew(PlanAt(cfg, p[|p|-1]))
  }

  predicate IsNew(p: Plan) {
    IsInvoke(p) && !p.maker.CallProvider?
  }

  lemma LeadsToSingleton(cfg: Config, sched: Schedule, n: Node, params: seq<Value>, st: State, fuel: nat, k: Key)
    requires |params| == |n.formals| && Eval(cfg, sched, n, params, st, fuel).Ok? && LeadsTo(cfg, n, k)
    ensures var r := Eval(cfg, sched, n, params, st, fuel);
      k in r.st.made && r.v == r.st.made[k]
  {
    hide PlanOf, Eval;
    var p :| PointerChain(cfg, p) && p[0] == n && IsOnce(PlanAt(cfg, p[|p|-1]), k);
    ChainKeepsPointer(cfg, sched, p, params, st, fuel);
    OnceStep(cfg, sched, p[|p|-1], params, st, fuel + 1 - |p|, k);
  }

  lemma InvokeIsFresh(cfg: Config, sched: Schedule, n: Node, params: seq<Value>, st: State, fuel: nat)
    requires |params| == |n.formals| && Inv(cfg, st) && Below(params, |st.heap|)
    requires Eval(cfg, sched, n, params, st, fuel).Ok? && IsInvoke(PlanAt(cfg, n))
    ensures var r := Eval(cfg, sched, n, params, st, fuel);
      && r.v.Object? && |st.heap| <= r.v.addr < |r.st.heap|
      && r.st.heap[r.v.addr].maker == PlanAt(cfg, n).maker
      && forall k :: k in r.st.made ==> Top(r.st.made[k]) <= r.v.addr
  {
    hide PlanOf, Kids, Denote, Needs;
    var kids := Kids(cfg, n);
    var order := ArgumentOrder(sched, n, st.heap, |kids|);
    EvalAllAgrees(cfg, sched, kids, params, order, st, fuel - 1);
    var mid := EvalAll(cfg, sched, kids, params, order, st, fuel - 1).st;
    forall k | k in mid.made ensures Top(mid.made[k]) <= |mid.heap| {
      assert CacheAgrees(cfg, mid, k);
    }
  }

  lemma LeadsToFreshObject(cfg: Config, sched: Schedule, n: Node, params: seq<Value>, st: State, fuel: nat)
    requires |params| == |n.formals| && Inv(cfg, st) && Below(params, |st.heap|)
    requires Eval(cfg, sched, n, params, st, fuel).Ok? && LeadsToNew(cfg, n)
    ensures var r := Eval(cfg, sched, n, params, st, fuel);
      && r.v.Object? && |st.heap| <= r.v.addr < |r.st.heap|
      && forall k :: k in r.st.made ==> r.st.made[k] != r.v
  {
    hide PlanOf, Eval, Denote;
    var p :| PointerChain(cfg, p) && p[0] == n && IsNew(PlanAt(cfg, p[|p|-1]));
    ChainKeepsPointer(cfg, sched, p, params, st, fuel);
    InvokeIsFresh(cfg, sched, p[|p|-1], params, st, fuel + 1 - |p|);
  }

  /** All requests that reach one singleton, at any two points of a run, directly or through
      bindings, const or not, return one pointer: the one that teardown will delete. */
  lemma OnePointerPerSingleton(cfg: Config, steps: seq<Step>, i: nat, j: nat, k: Key)
    requires RunOf(cfg, steps).Running? && i < |steps| && j < |steps|
    requires LeadsTo(cfg, steps[i].n, k) && LeadsTo(cfg, steps[j].n, k)
    ensures var run := RunOf(cfg, steps);
      && |run.results| == |steps| && k in run.st.made
      && run.results[i] == run.results[j] == run.st.made[k]
  {
    hide PlanOf, Eval, Denote, Needs, RunOf, Inv, LeadsTo;
    forall x | x in [i, j]
      ensures k in RunOf(cfg, steps).st.made && |RunOf(cfg, steps).results| == |steps|
      ensures RunOf(cfg, steps).results[x] == RunOf(cfg, steps).st.made[k]
    {
      var s := steps[x];
      StepOfRun(cfg, steps, x);
      LeadsToSingleton(cfg, s.sched, s.n, s.params, RunOf(cfg, steps[..x]).st, s.fuel, k);
      RunPrefix(cfg, steps, x + 1);
    }
    assert i in [i, j] && j in [i, j];
  }

  /** A request that ends in a constructor returns an object distinct from every object
      in the heap before it, from every value returned before it, and from every singleton
      created so far. */
  lemma ConstructedIsNew(cfg: Config, steps: seq<Step>, i: nat, j: nat)
    requires RunOf(cfg, steps).Running? && i < j < |steps|
    requires LeadsToNew(cfg, steps[j].n)
    ensures var run := RunOf(cfg, steps);
      && |run.results| == |steps|
      && run.results[j].Object? && run.results[i] != run.results[j]
    ensures RunOf(cfg, steps[..j]).Running?
    ensures |RunOf(cfg, steps[..j]).st.heap| <= RunOf(cfg, steps).results[j].addr
    ensures var upToNow := RunOf(cfg, steps[..j+1]);
      && upToNow.Running?
      && forall k :: k in upToNow.st.made ==> upToNow.st.made[k] != RunOf(cfg, steps).results[j]
  {
    hide PlanOf, Eval, Denote, Needs;
    var s := steps[j];
    StepOfRun(cfg, steps, j);
    RunPrefix(cfg, steps, j);
    ReachableInv(cfg, steps[..j]);
    LeadsToFreshObject(cfg, s.sched, s.n, s.params, RunOf(cfg, steps[..j]).st, s.fuel);
    assert RunOf(cfg, steps[..j]).results[i] == RunOf(cfg, steps).results[i];
  }

  // ---- Singletons are objects of their own ----

  ghost predicate DistinctObjects(st: State) {
    && (forall k :: k in st.made ==>
          st.made[k].Object? && st.made[k].addr < |st.heap| && st.heap[st.made[k].addr].maker == New(k.spec))
    && (forall k, l :: k in st.made && l in st.made && k != l ==> st.made[k] != st.made[l])
  }

  lemma InnerIsConstructed(cfg: Config, k: Key)
    requires WellBound(cfg) && k in cfg.table && cfg.table[k].Singleton?
    ensures var p := PlanAt(cfg, InnerNode(cfg, k)); p.Stop? || (IsNew(p) && p.maker == New(k.spec))
  {
    assert WellBoundEntry(cfg, k, cfg.table[k]);
    var req := UnScopedRequest(cfg.table[k].ty);
    assert KeyOf(req) !in cfg.table;
  }

  lemma SameDistinct(st: State, later: State)
    requires DistinctObjects(st) && later.made == st.made && st.heap <= later.heap
    ensures DistinctObjects(later)
  {
  }

  lemma AddDistinct(st: State, key: Key, v: Value, later: State)
    requires DistinctObjects(st) && v.Object? && v.addr < |st.heap| && st.heap[v.addr].maker == New(key.spec)
    requires forall k :: k in st.made ==> Top(st.made[k]) <= v.addr
    requires later.made == st.made[key := v] && later.heap == st.heap
    ensures DistinctObjects(later)
  {
  }

  /** Any other request: its sub-requests in the same context, and one step on top. */
  lemma PlainStep(cfg: Config, sched: Schedule, n: Node, params: seq<Value>, st: State, fuel: nat)
    requires |params| == |n.formals| && !PlanAt(cfg, n).Once?
    requires Eval(cfg, sched, n, params, st, fuel).Ok?
    ensures fuel > 0 && !PlanAt(cfg, n).Stop?
    ensures forall i :: 0 <= i < |Kids(cfg, n)| ==> Kids(cfg, n)[i].formals == n.formals
    ensures var kids := Kids(cfg, n);
      var all := EvalAll(cfg, sched, kids, params, ArgumentOrder(sched, n, st.heap, |kids|), st, fuel - 1);
      && all.AllOk?
      && (forall i: nat :: i < |kids| ==> i in ArgumentOrder(sched, n, st.heap, |kids|))
      && Eval(cfg, sched, n, params, st, fuel) == Finish(PlanAt(cfg, n), params, Arguments(all.vs, |kids|), all.st)
  {
    hide PlanOf, Finish;
  }

  lemma {:induction false} EvalKeepsDistinct(cfg: Config, sched: Schedule, n: Node, params: seq<Value>, st: State, fuel: nat)
    requires |params| == |n.formals| && WellBound(cfg)
    requires Inv(cfg, st) && Below(params, |st.heap|) && DistinctObjects(st)
    requires Eval(cfg, sched, n, params, st, fuel).Ok?
    ensures DistinctObjects(Eval(cfg, sched, n, params, st, fuel).st)
    decreases fuel, 0
  {
    hide PlanOf, Denote, Needs, Unfold, Kids, Eval, DistinctObjects, Inv;
    var p := PlanAt(cfg, n);
    if p.Once? && p.key in st.made {
      CachedStep(cfg, sched, n, params, st, fuel);
    } else if p.Once? {
      OnceIsSingleton(cfg, n);
      SuccessMeans(cfg, sched, n, params, st, fuel);
      OneKid(cfg, sched, n, params, st, fuel);
      var inner := InnerNode(cfg, p.key);
      EvalKeepsDistinct(cfg, sched, inner, [], st, fuel - 1);
      InnerIsConstructed(cfg, p.key);
      SuccessMeans(cfg, sched, inner, [], st, fuel - 1);
      InvokeIsFresh(cfg, sched, inner, [], st, fuel - 1);
      var r := Eval(cfg, sched, inner, [], st, fuel - 1);
      AddDistinct(r.st, p.key, r.v, Eval(cfg, sched, n, params, st, fuel).st);
    } else {
      PlainStep(cfg, sched, n, params, st, fuel);
      var kids := Kids(cfg, n);
      var order := ArgumentOrder(sched, n, st.heap, |kids|);
      EvalAllKeepsDistinct(cfg, sched, kids, params, order, st, fuel - 1);
      SameDistinct(EvalAll(cfg, sched, kids, params, order, st, fuel - 1).st,
                   Eval(cfg, sched, n, params, st, fuel).st);
    }
  }

  lemma CachedStep(cfg: Config, sched: Schedule, n: Node, params: seq<Value>, st: State, fuel: nat)
    requires |params| == |n.formals| && PlanAt(cfg, n).Once? && PlanAt(cfg, n).key in st.made
    requires Eval(cfg, sched, n, params, st, fuel).Ok?
    ensures Eval(cfg, sched, n, params, st, fuel).st == st
  {
    hide PlanOf;
  }

  lemma SuccessMeans(cfg: Config, sched: Schedule, n: Node, params: seq<Value>, st: State, fuel: nat)
    requires |params| == |n.formals| && Eval(cfg, sched, n, params, st, fuel).Ok?
    ensures fuel > 0 && !PlanAt(cfg, n).Stop?
  {
    hide PlanOf;
  }

  lemma {:induction false} EvalAllKeepsDistinct(cfg: Config, sched: Schedule, ns: seq<Node>, params: seq<Value>,
                                                todo: seq<nat>, st: State, fuel: nat)
    requires SameShape(ns, params) && WellBound(cfg)
    requires forall i :: 0 <= i < |todo| ==> todo[i] < |ns|
    requires Inv(cfg, st) && Below(params, |st.heap|) && DistinctObjects(st)
    requires EvalAll(cfg, sched, ns, params, todo, st, fuel).AllOk?
    ensures DistinctObjects(EvalAll(cfg, sched, ns, params, todo, st, fuel).st)
    decreases fuel, 1 + |todo|
  {
    hide PlanOf, Denote, Needs, Unfold, Kids, Eval, DistinctObjects, Inv;
    if todo != [] {
      EvalKeepsDistinct(cfg, sched, ns[todo[0]], params, st, fuel);
      EvalAgrees(cfg, sched, ns[todo[0]], params, st, fuel);
      var st1 := Eval(cfg, sched, ns[todo[0]], params, st, fuel).st;
      EvalAllKeepsDistinct(cfg, sched, ns, params, todo[1..], st1, fuel);
    }
  }

  /** Two singleton bindings, be they two labels of one type, are two objects, each made by the
      constructor of its own class: deleting each once deletes nothing twice. */
  lemma {:induction false} SingletonsAreDistinct(cfg: Config, steps: seq<Step>)
    requires WellBound(cfg) && RunOf(cfg, steps).Running?
    ensures DistinctObjects(RunOf(cfg, steps).st)
  {
    hide PlanOf, Eval, Denote, Needs;
    if steps != [] {
      var s := steps[|steps|-1];
      var before := steps[..|steps|-1];
      SingletonsAreDistinct(cfg, before);
      ReachableInv(cfg, before);
      EvalKeepsDistinct(cfg, s.sched, s.n, s.params, RunOf(cfg, before).st, s.fuel);
    }
  }

  /** Requests for two singletons never return one pointer. */
  lemma DifferentSingletons(cfg: Config, steps: seq<Step>, i: nat, j: nat, k: Key, l: Key)
    requires WellBound(cfg) && RunOf(cfg, steps).Running? && i < |steps| && j < |steps| && k != l
    requires LeadsTo(cfg, steps[i].n, k) && LeadsTo(cfg, steps[j].n, l)
    ensures |RunOf(cfg, steps).results| == |steps|
    ensures RunOf(cfg, steps).results[i] != RunOf(cfg, steps).results[j]
  {
    hide PlanOf, Eval, Denote, Needs, RunOf, Inv, LeadsTo;
    OnePointerPerSingleton(cfg, steps, i, i, k);
    OnePointerPerSingleton(cfg, steps, j, j, l);
    SingletonsAreDistinct(cfg, steps);
  }

  /** A singleton bound at a pointer type is reached by requests for that pointer and for
      the pointer to const. */
  lemma ConstOrNot(cfg: Config, k: Key, formals: seq<Formal>)
    requires WellBound(cfg) && k in cfg.table && cfg.table[k].Singleton?
    ensures var ty := cfg.table[k].ty;
      && LeadsTo(cfg, Node(formals, Request(NormalInject, k.tag, ty)), k)
      && LeadsTo(cfg, Node(formals, Request(NormalInject, k.tag, Pointer(AddConst(ty.to)))), k)
  {
    var ty := cfg.table[k].ty;
    assert WellBoundEntry(cfg, k, cfg.table[k]);
    ReadAsExact(ty, ty);
    ReadAsExact(Pointer(AddConst(ty.to)), ty);
    var n := Node(formals, Request(NormalInject, k.tag, ty));
    var m := Node(formals, Request(NormalInject, k.tag, Pointer(AddConst(ty.to))));
    assert PointerChain(cfg, [n]) && PointerChain(cfg, [m]);
    assert IsOnce(PlanAt(cfg, [n][0]), k) && IsOnce(PlanAt(cfg, [m][0]), k);
  }

  /** Over a whole run, exactly the singletons that some call needed have been created. */
  lemma {:induction false} LazyOverRuns(cfg: Config, steps: seq<Step>)
    requires RunOf(cfg, steps).Running?
    ensures forall k :: k in RunOf(cfg, steps).st.made <==>
      exists i :: 0 <= i < |steps| && Needs(cfg, steps[i].n, k)
  {
    hide PlanOf, Eval, Denote, Needs, Inv;
    if steps != [] {
      var last := |steps| - 1;
      var s := steps[last];
      var before := steps[..last];
      LazyOverRuns(cfg, before);
      ReachableInv(cfg, before);
      EvalAgrees(cfg, s.sched, s.n, s.params, RunOf(cfg, before).st, s.fuel);
      forall k ensures k in RunOf(cfg, steps).st.made <==> exists i :: 0 <= i < |steps| && Needs(cfg, steps[i].n, k) {
        if i :| 0 <= i < |before| && Needs(cfg, before[i].n, k) { assert Needs(cfg, steps[i].n, k); }
        if i :| 0 <= i < |steps| && Needs(cfg, steps[i].n, k) {
          if i < last { assert Needs(cfg, before[i].n, k); }
        }
      }
    }
  }

  /** The objects that the cache holds at the end of a run are what the memo-free resolver
      makes of their creation requests. */
  lemma CacheOverRuns(cfg: Config, steps: seq<Step>, k: Key)
    requires RunOf(cfg, steps).Running? && k in RunOf(cfg, steps).st.made
    ensures var st := RunOf(cfg, steps).st;
      && HeapOk(st.heap) && CacheAgrees(cfg, st, k)
  {
    hide RunOf, Denote;
    ReachableInv(cfg, steps);
  }

  // ---- Creation order ----

  ghost predicate CreatedBefore(order: seq<Key>, a: Key, b: Key) {
    exists i, j :: 0 <= i < j < |order| && order[i] == a && order[j] == b
  }

  /** After every run, whatever a singleton's creation needed, however deep, stands before it
      in the cleanup list and never behind it, so walking the list backwards deletes every
      dependent before what it depends on. */
  lemma DependenciesFirst(cfg: Config, steps: seq<Step>, user: Key, k: Key)
    requires RunOf(cfg, steps).Running?
    requires user in RunOf(cfg, steps).st.made && NeededBy(cfg, user, k)
    ensures var st := RunOf(cfg, steps).st;
      && k in st.made && k != user
      && CreatedBefore(st.order, k, user) && !CreatedBefore(st.order, user, k)
  {
    hide PlanOf, RunOf, Needs;
    ReachableInv(cfg, steps);
    var st := RunOf(cfg, steps).st;
    var j :| 0 <= j < |st.order| && st.order[j] == user;
    assert k in st.order[..j];
    var i :| 0 <= i < j && st.order[i] == k;
  }

  // ---- Runs that end early ----

  /** The `i`-th call is made, and cannot be answered. */
  ghost predicate FailsAt(cfg: Config, steps: seq<Step>, i: nat) {
    && i < |steps| && RunOf(cfg, steps[..i]).Running?
    && !(Callable(steps[i], RunOf(cfg, steps[..i]).st) && Clean(cfg, steps[i].n) && Acyclic(cfg, steps[i].n))
  }

  lemma {:induction false} HaltedStays(cfg: Config, steps: seq<Step>, i: nat)
    requires i <= |steps| && RunOf(cfg, steps[..i]).Halted?
    ensures RunOf(cfg, steps) == RunOf(cfg, steps[..i])
    decreases |steps| - i
  {
    hide Eval;
    if i == |steps| {
      assert steps[..i] == steps;
    } else {
      assert steps[..i+1][..i] == steps[..i];
      HaltedStays(cfg, steps, i + 1);
    }
  }

  /** The call that ends a run, and why it does. */
  lemma {:induction false} HaltingStep(cfg: Config, steps: seq<Step>) returns (i: nat)
    requires RunOf(cfg, steps).Halted?
    ensures i < |steps| && RunOf(cfg, steps[..i]).Running? && RunOf(cfg, steps[..i+1]) == RunOf(cfg, steps)
    ensures var s := steps[i]; var st := RunOf(cfg, steps[..i]).st;
      match RunOf(cfg, steps).how
      case ByCaller => !Callable(s, st)
      case ByOverflow => Callable(s, st) && Eval(cfg, s.sched, s.n, s.params, st, s.fuel) == OutOfFuel
      case ByFatal(why) => Callable(s, st) && Eval(cfg, s.sched, s.n, s.params, st, s.fuel) == Fatal(why)
  {
    hide Eval;
    var last := |steps| - 1;
    assert steps[..last+1] == steps;
    if RunOf(cfg, steps[..last]).Running? {
      i := last;
    } else {
      i := HaltingStep(cfg, steps[..last]);
      assert steps[..last][..i] == steps[..i] && steps[..last][..i+1] == steps[..i+1];
    }
  }

  /** A call that cannot be answered ends the run; with a stack as deep as there are bindings,
      nothing else does. */
  lemma HaltsExactly(cfg: Config, steps: seq<Step>)
    ensures (exists i :: FailsAt(cfg, steps, i)) ==> RunOf(cfg, steps).Halted?
    ensures (forall i :: 0 <= i < |steps| ==> steps[i].fuel >= Limit(cfg)) ==>
      (RunOf(cfg, steps).Halted? <==> exists i :: FailsAt(cfg, steps, i))
  {
    hide PlanOf, RunOf, Eval, Inv, Clean, Acyclic;
    if i: nat :| FailsAt(cfg, steps, i) {
      if RunOf(cfg, steps).Running? {
        StepOfRun(cfg, steps, i);
        AnsweredMeans(cfg, steps[..i], steps[i]);
      }
    }
    if RunOf(cfg, steps).Halted? {
      var i := HaltingStep(cfg, steps);
      if steps[i].fuel >= Limit(cfg) && !FailsAt(cfg, steps, i) {
        assert steps[..i+1][..i] == steps[..i];
        AnswerableStep(cfg, steps[..i+1]);
      }
    }
  }

  lemma AnsweredMeans(cfg: Config, before: seq<Step>, s: Step)
    requires RunOf(cfg, before).Running? && Callable(s, RunOf(cfg, before).st)
    requires Eval(cfg, s.sched, s.n, s.params, RunOf(cfg, before).st, s.fuel).Ok?
    ensures Clean(cfg, s.n) && Acyclic(cfg, s.n)
  {
    hide PlanOf, RunOf, Eval, Inv, Clean, Acyclic;
    ReachableInv(cfg, before);
    SucceedsExactly(cfg, s.sched, s.n, s.params, RunOf(cfg, before).st);
  }

  lemma AnswerableStep(cfg: Config, steps: seq<Step>)
    requires steps != [] && steps[|steps|-1].fuel >= Limit(cfg)
    requires RunOf(cfg, steps[..|steps|-1]).Running? && !FailsAt(cfg, steps, |steps| - 1)
    ensures RunOf(cfg, steps).Running?
  {
    hide PlanOf, Eval, Inv, Clean, Acyclic;
    var s := steps[|steps|-1];
    var before := steps[..|steps|-1];
    ReachableInv(cfg, before);
    var st := RunOf(cfg, before).st;
    SucceedsExactly(cfg, s.sched, s.n, s.params, st);
    EvalMonotone(cfg, s.sched, s.n, s.params, st, Limit(cfg), s.fuel);
  }

  /** With such a stack, only a cycle overflows it. */
  lemma OverflowMeansCycle(cfg: Config, steps: seq<Step>)
    requires RunOf(cfg, steps) == Halted(ByOverflow)
    requires forall i :: 0 <= i < |steps| ==> steps[i].fuel >= Limit(cfg)
    ensures exists i :: 0 <= i < |steps| && !Acyclic(cfg, steps[i].n)
  {
    hide PlanOf, Eval, Inv, Clean, Acyclic;
    var i := HaltingStep(cfg, steps);
    var s := steps[i];
    var st := RunOf(cfg, steps[..i]).st;
    assert steps[..i+1][..i] == steps[..i];
    if Acyclic(cfg, s.n) {
      AcyclicEnds(cfg, s.sched, s.n, s.params, st);
      EvalMonotone(cfg, s.sched, s.n, s.params, st, Limit(cfg), s.fuel);
    }
  }
}
