/** The cached resolver agrees with the memo-free one, in every reachable state and for
    every order of argument evaluation. */
module ResolverCorrectness {
  import opened Bindings
  import opened ResolutionGraph
  import opened Resolver

  /** The value `v`, followed through the heap, is what the memo-free resolver denotes,
      with the factory's parameters replaced by what was passed for them. */
  ghost predicate Agrees(cfg: Config, n: Node, params: seq<Value>, v: Value, heap: seq<Cell>) {
    && HeapOk(heap) && Below(params, |heap|) && Top(v) <= |heap|
    && Den(cfg, n).Defined?
    && Unfold(heap, v) == Subst(Den(cfg, n).tree, UnfoldAll(heap, params))
  }

  /** Exactly the singletons that the request needs exist in addition. */
  ghost predicate CreatedExactly(cfg: Config, n: Node, st: State, later: State) {
    forall k :: k in later.made <==> k in st.made || Needs(cfg, n, k)
  }

  // ---- Closed trees ----

  predicate Closed(t: Tree) {
    match t
    case Leaf(_) => true
    case Parameter(_) => false
    case Made(_, deps) => forall i :: 0 <= i < |deps| ==> Closed(deps[i])
    case Copied(u) => Closed(u)
    case ConvertedTo(_, u) => Closed(u)
  }

  lemma {:induction false} SubstClosed(t: Tree, env: seq<Tree>)
    requires Closed(t)
    ensures Subst(t, env) == t
  {
    match t
    case Leaf(_) =>
    case Made(maker, deps) =>
      forall i | 0 <= i < |deps| ensures Subst(deps[i], env) == deps[i] {
        SubstClosed(deps[i], env);
      }
      assert seq(|deps|, i requires 0 <= i < |deps| => Subst(deps[i], env)) == deps;
    case Copied(u) => SubstClosed(u, env);
    case ConvertedTo(_, u) => SubstClosed(u, env);
  }

  /** In an empty local context there is no parameter to depend on. */
  lemma {:induction false} EmptyContextIsClosed(cfg: Config, n: Node, f: nat)
    requires n.formals == [] && Denote(cfg, n, f).Defined?
    ensures Closed(Denote(cfg, n, f).tree)
    decreases f
  {
    hide PlanOf, BuildTree;
    var kids := Kids(cfg, n);
    var ds := DenoteAll(cfg, kids, f - 1);
    forall i | 0 <= i < |kids| ensures ds[i].Defined? && Closed(ds[i].tree) {
      DefinedKid(cfg, n, f, i);
      DenoteAllAt(cfg, kids, f - 1, i);
      EmptyContextIsClosed(cfg, kids[i], f - 1);
    }
    BuildTreeClosed(PlanAt(cfg, n), TreesOf(ds));
  }

  lemma BuildTreeClosed(p: Plan, ts: seq<Tree>)
    requires !p.Stop? && !p.TakeParam? && |ts| == |SubRequests(p)|
    requires forall i :: 0 <= i < |ts| ==> Closed(ts[i])
    ensures Closed(BuildTree(p, ts))
  {
  }

  // ---- One step ----

  lemma ExtendsTransitive(a: State, b: State, c: State)
    requires Extends(a, b) && Extends(b, c)
    ensures Extends(a, c)
  {
  }

  lemma UnfoldAllStable(heap: seq<Cell>, longer: seq<Cell>, vs: seq<Value>)
    requires HeapOk(heap) && HeapOk(longer) && heap <= longer && Below(vs, |heap|)
    ensures Below(vs, |longer|) && UnfoldAll(longer, vs) == UnfoldAll(heap, vs)
  {
    forall i | 0 <= i < |vs| ensures Unfold(longer, vs[i]) == Unfold(heap, vs[i]) {
      UnfoldStable(heap, longer, vs[i]);
    }
    assert UnfoldAll(longer, vs) == UnfoldAll(heap, vs);
  }

  lemma AgreesStable(cfg: Config, n: Node, params: seq<Value>, v: Value, heap: seq<Cell>, longer: seq<Cell>)
    requires Agrees(cfg, n, params, v, heap) && HeapOk(longer) && heap <= longer
    ensures Agrees(cfg, n, params, v, longer)
  {
    UnfoldStable(heap, longer, v);
    UnfoldAllStable(heap, longer, params);
  }

  lemma CacheStable(cfg: Config, st: State, heap: seq<Cell>)
    requires Inv(cfg, st) && HeapOk(heap) && st.heap <= heap
    ensures forall k :: k in st.made ==> CacheAgrees(cfg, st.(heap := heap), k)
  {
    forall k | k in st.made ensures CacheAgrees(cfg, st.(heap := heap), k) {
      assert CacheAgrees(cfg, st, k);
      UnfoldStable(st.heap, heap, st.made[k]);
    }
  }

  /** Finishing a plan builds, in the heap, the tree that the memo-free resolver builds. */
  lemma FinishAgrees(p: Plan, params: seq<Value>, vs: seq<Value>, ts: seq<Tree>, st: State)
    requires !p.Stop? && |vs| == |ts| == |SubRequests(p)|
    requires p.TakeParam? ==> p.i < |params|
    requires HeapOk(st.heap) && Below(params, |st.heap|) && Below(vs, |st.heap|)
    requires forall i :: 0 <= i < |vs| ==> Unfold(st.heap, vs[i]) == Subst(ts[i], UnfoldAll(st.heap, params))
    ensures var r := Finish(p, params, vs, st);
      && HeapOk(r.st.heap) && st.heap <= r.st.heap && Top(r.v) <= |r.st.heap|
      && Unfold(r.st.heap, r.v) == Subst(BuildTree(p, ts), UnfoldAll(st.heap, params))
  {
    if p.Invoke? {
      var env := UnfoldAll(st.heap, params);
      var heap := Finish(p, params, vs, st).st.heap;
      assert heap[|st.heap|].deps == vs && forall a :: 0 <= a < |st.heap| ==> heap[a] == st.heap[a];
      UnfoldAllStable(st.heap, heap, vs);
      UnfoldObject(heap, |st.heap|);
      assert UnfoldAll(heap, vs) == seq(|ts|, i requires 0 <= i < |ts| => Subst(ts[i], env));
    }
  }

  // ---- Whole resolutions ----

  lemma {:induction false} EvalAgrees(cfg: Config, sched: Schedule, n: Node, params: seq<Value>, st: State, fuel: nat)
    requires |params| == |n.formals|
    requires Inv(cfg, st) && Below(params, |st.heap|)
    requires Eval(cfg, sched, n, params, st, fuel).Ok?
    ensures var r := Eval(cfg, sched, n, params, st, fuel);
      && Inv(cfg, r.st) && Extends(st, r.st)
      && Agrees(cfg, n, params, r.v, r.st.heap)
      && CreatedExactly(cfg, n, st, r.st)
    decreases fuel, 0
  {
    hide PlanOf, Kids, Finish, Denote, Unfold, Needs;
    var p := PlanAt(cfg, n);
    if p.Once? && p.key in st.made {
      CachedAgrees(cfg, n, params, st);
    } else {
      var kids := Kids(cfg, n);
      var order := ArgumentOrder(sched, n, st.heap, |kids|);
      var sub := SubParams(p, params);
      EvalAllAgrees(cfg, sched, kids, sub, order, st, fuel - 1);
      var all := EvalAll(cfg, sched, kids, sub, order, st, fuel - 1);
      var vs := Arguments(all.vs, |kids|);
      forall i | 0 <= i < |kids| ensures Agrees(cfg, kids[i], sub, vs[i], all.st.heap) {
        assert i in order;
      }
      forall k ensures k in all.st.made <==> k in st.made || exists i :: 0 <= i < |kids| && Needs(cfg, kids[i], k) {
        assert forall i: nat :: i < |kids| ==> i in order;
      }
      StepAgrees(cfg, n, params, vs, st, all.st);
    }
  }

  lemma CachedAgrees(cfg: Config, n: Node, params: seq<Value>, st: State)
    requires |params| == |n.formals| && Inv(cfg, st) && Below(params, |st.heap|)
    requires PlanAt(cfg, n).Once? && PlanAt(cfg, n).key in st.made
    ensures var p := PlanAt(cfg, n);
      Agrees(cfg, n, params, CopyValue(p.copy, st.made[p.key]), st.heap)
    ensures CreatedExactly(cfg, n, st, st)
  {
    hide PlanOf, Denote, Unfold, Needs;
    var key := PlanAt(cfg, n).key;
    OnceIsSingleton(cfg, n);
    assert CacheAgrees(cfg, st, key);
    OnceTree(cfg, n, params, st.made[key], st.heap);
    forall k ensures k in st.made <==> k in st.made || Needs(cfg, n, k) {
      NeedsUnfolds(cfg, n, k);
      if Needs(cfg, n, k) && k != key {
        var i: nat :| i < |st.order| && st.order[i] == key;
        assert NeededBy(cfg, st.order[i], k);
      }
    }
  }

  /** A singleton request agrees as soon as its object agrees with the creation request. */
  lemma OnceTree(cfg: Config, n: Node, params: seq<Value>, v: Value, heap: seq<Cell>)
    requires PlanAt(cfg, n).Once? && HeapOk(heap) && Below(params, |heap|) && Top(v) <= |heap|
    requires PlanAt(cfg, n).key in cfg.table && cfg.table[PlanAt(cfg, n).key].Singleton?
    requires Den(cfg, InnerNode(cfg, PlanAt(cfg, n).key)) == Defined(Unfold(heap, v))
    ensures Agrees(cfg, n, params, CopyValue(PlanAt(cfg, n).copy, v), heap)
  {
    hide PlanOf, Needs;
    var inner := InnerNode(cfg, PlanAt(cfg, n).key);
    OnceIsSingleton(cfg, n);
    DenoteAllAt(cfg, Kids(cfg, n), Limit(cfg), 0);
    DenEquation(cfg, n);
    EmptyContextIsClosed(cfg, inner, Limit(cfg));
    SubstClosed(Unfold(heap, v), UnfoldAll(heap, params));
  }

  lemma StepAgrees(cfg: Config, n: Node, params: seq<Value>, vs: seq<Value>, st: State, mid: State)
    requires |params| == |n.formals| && !PlanAt(cfg, n).Stop?
    requires Inv(cfg, st) && Inv(cfg, mid) && Extends(st, mid) && Below(params, |st.heap|)
    requires PlanAt(cfg, n).Once? ==> PlanAt(cfg, n).key !in st.made
    requires |vs| == |Kids(cfg, n)|
    requires forall i :: 0 <= i < |vs| ==>
      Agrees(cfg, Kids(cfg, n)[i], SubParams(PlanAt(cfg, n), params), vs[i], mid.heap)
    requires forall k :: k in mid.made <==>
      k in st.made || exists i :: 0 <= i < |vs| && Needs(cfg, Kids(cfg, n)[i], k)
    ensures var r := Finish(PlanAt(cfg, n), params, vs, mid);
      && Inv(cfg, r.st) && Extends(st, r.st)
      && Agrees(cfg, n, params, r.v, r.st.heap)
      && CreatedExactly(cfg, n, st, r.st)
  {
    hide PlanOf, Kids, Denote, Unfold, Needs, Finish, Inv, Agrees;
    var p := PlanAt(cfg, n);
    forall k ensures Needs(cfg, n, k) <==>
      (p.Once? && p.key == k) || exists i :: 0 <= i < |vs| && Needs(cfg, Kids(cfg, n)[i], k)
    {
      NeedsUnfolds(cfg, n, k);
    }
    if p.Once? {
      assert |vs| == 1;
      forall k ensures k in mid.made <==> k in st.made || Needs(cfg, Kids(cfg, n)[0], k) {
        if i :| 0 <= i < |vs| && Needs(cfg, Kids(cfg, n)[i], k) { assert i == 0; }
      }
      OnceStepAgrees(cfg, n, params, vs, st, mid);
    } else {
      PlainStepAgrees(cfg, n, params, vs, mid);
    }
    ExtendsTransitive(st, mid, Finish(p, params, vs, mid).st);
  }

  lemma PlainStepAgrees(cfg: Config, n: Node, params: seq<Value>, vs: seq<Value>, mid: State)
    requires |params| == |n.formals| && !PlanAt(cfg, n).Stop? && !PlanAt(cfg, n).Once?
    requires Inv(cfg, mid) && Below(params, |mid.heap|)
    requires |vs| == |Kids(cfg, n)|
    requires forall i :: 0 <= i < |vs| ==> Agrees(cfg, Kids(cfg, n)[i], params, vs[i], mid.heap)
    ensures var r := Finish(PlanAt(cfg, n), params, vs, mid);
      && Inv(cfg, r.st) && Extends(mid, r.st) && r.st.made == mid.made
      && Agrees(cfg, n, params, r.v, r.st.heap)
  {
    hide PlanOf, Kids, Denote, Unfold, Needs;
    var p := PlanAt(cfg, n);
    var kids := Kids(cfg, n);
    var ds := DenAll(cfg, kids);
    forall i | 0 <= i < |kids| ensures ds[i] == Den(cfg, kids[i]) {
      DenoteAllAt(cfg, kids, Limit(cfg), i);
    }
    DenEquation(cfg, n);
    FinishAgrees(p, params, vs, TreesOf(ds), mid);
    var heap := Finish(p, params, vs, mid).st.heap;
    UnfoldAllStable(mid.heap, heap, params);
    CacheStable(cfg, mid, heap);
    assert Finish(p, params, vs, mid).st == mid.(heap := heap);
  }

  lemma OnceStepAgrees(cfg: Config, n: Node, params: seq<Value>, vs: seq<Value>, st: State, mid: State)
    requires |params| == |n.formals| && PlanAt(cfg, n).Once? && PlanAt(cfg, n).key !in st.made
    requires Inv(cfg, st) && Inv(cfg, mid) && Extends(st, mid) && Below(params, |st.heap|)
    requires |vs| == |Kids(cfg, n)| && Agrees(cfg, Kids(cfg, n)[0], [], vs[0], mid.heap)
    requires forall k :: k in mid.made <==> k in st.made || Needs(cfg, Kids(cfg, n)[0], k)
    ensures var r := Finish(PlanAt(cfg, n), params, vs, mid);
      && Inv(cfg, r.st) && Extends(mid, r.st)
      && (forall k :: k in r.st.made <==> k == PlanAt(cfg, n).key || k in mid.made)
      && Agrees(cfg, n, params, r.v, r.st.heap)
  {
    hide PlanOf, Denote, Needs, Unfold, Kids, Inv;
    var key := PlanAt(cfg, n).key;
    OnceIsSingleton(cfg, n);
    CreationKeepsInv(cfg, key, vs[0], st, mid);
    ClosedAgrees(cfg, key, vs[0], mid.heap);
    OnceTree(cfg, n, params, vs[0], mid.heap);
  }

  /** What agrees with a creation request unfolds to its denotation itself. */
  lemma ClosedAgrees(cfg: Config, key: Key, v: Value, heap: seq<Cell>)
    requires key in cfg.table && cfg.table[key].Singleton?
    requires Agrees(cfg, InnerNode(cfg, key), [], v, heap)
    ensures Den(cfg, InnerNode(cfg, key)) == Defined(Unfold(heap, v))
  {
    hide PlanOf, Denote, Unfold;
    EmptyContextIsClosed(cfg, InnerNode(cfg, key), Limit(cfg));
    SubstClosed(Den(cfg, InnerNode(cfg, key)).tree, UnfoldAll(heap, []));
  }

  /** Recording a new singleton: its once flag is still unset after its dependencies are
      complete, and the invariant holds with the provider appended to the cleanup list. */
  lemma CreationKeepsInv(cfg: Config, key: Key, v: Value, st: State, mid: State)
    requires key in cfg.table && cfg.table[key].Singleton? && key !in st.made
    requires Inv(cfg, mid) && Extends(st, mid)
    requires Agrees(cfg, InnerNode(cfg, key), [], v, mid.heap)
    requires CreatedExactly(cfg, InnerNode(cfg, key), st, mid)
    ensures key !in mid.made
    ensures Inv(cfg, Created(key, v, mid)) && Extends(mid, Created(key, v, mid))
  {
    hide PlanOf, Denote, Needs, Unfold, Kids, Topological;
    CreationIsNotReentrant(cfg, key);
    ClosedAgrees(cfg, key, v, mid.heap);
    var later := Created(key, v, mid);
    forall k | k in later.made ensures CacheAgrees(cfg, later, k) {
      if k != key { assert CacheAgrees(cfg, mid, k); }
    }
    TopologicalAppend(cfg, mid.order, key);
  }

  lemma TopologicalAppend(cfg: Config, order: seq<Key>, key: Key)
    requires Topological(cfg, order)
    requires forall k :: NeededBy(cfg, key, k) ==> k in order
    ensures Topological(cfg, order + [key])
  {
    hide Needs;
    var longer := order + [key];
    forall i, k | 0 <= i < |longer| && NeededBy(cfg, longer[i], k) ensures k in longer[..i] {
      if i < |order| {
        assert NeededBy(cfg, order[i], k);
        assert longer[..i] == order[..i];
      } else {
        assert longer[..i] == order;
      }
    }
  }

  lemma {:induction false} EvalAllAgrees(cfg: Config, sched: Schedule, ns: seq<Node>, params: seq<Value>,
                                         todo: seq<nat>, st: State, fuel: nat)
    requires SameShape(ns, params)
    requires forall i :: 0 <= i < |todo| ==> todo[i] < |ns|
    requires Inv(cfg, st) && Below(params, |st.heap|)
    requires EvalAll(cfg, sched, ns, params, todo, st, fuel).AllOk?
    ensures var r := EvalAll(cfg, sched, ns, params, todo, st, fuel);
      && Inv(cfg, r.st) && Extends(st, r.st)
      && (forall x :: x in todo ==> Agrees(cfg, ns[x], params, r.vs[x], r.st.heap))
      && (forall k :: k in r.st.made <==> k in st.made || exists x :: x in todo && Needs(cfg, ns[x], k))
    decreases fuel, 1 + |todo|
  {
    hide PlanOf, Kids, Denote, Unfold, Needs;
    if todo != [] {
      var first := todo[0];
      EvalAgrees(cfg, sched, ns[first], params, st, fuel);
      var r1 := Eval(cfg, sched, ns[first], params, st, fuel);
      EvalAllAgrees(cfg, sched, ns, params, todo[1..], r1.st, fuel);
      var rest := EvalAll(cfg, sched, ns, params, todo[1..], r1.st, fuel);
      var all := EvalAll(cfg, sched, ns, params, todo, st, fuel);
      ExtendsTransitive(st, r1.st, rest.st);
      AgreesStable(cfg, ns[first], params, r1.v, r1.st.heap, rest.st.heap);
      assert all.vs == rest.vs[first := r1.v] && all.st == rest.st;
      forall x | x in todo ensures Agrees(cfg, ns[x], params, all.vs[x], all.st.heap) {
        if x != first { assert x in todo[1..]; }
      }
      forall k ensures k in all.st.made <==> k in st.made || exists x :: x in todo && Needs(cfg, ns[x], k) {
        assert forall x :: x in todo <==> x == first || x in todo[1..];
        if Needs(cfg, ns[first], k) { assert first in todo; }
      }
    }
  }
}
