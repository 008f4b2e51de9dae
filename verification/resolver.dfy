/** The resolver with its lazy-singleton cache: state passed through the recursion,
    constructor arguments evaluated in any order. */
module Resolver {
  import opened CppTypes
  import opened Bindings
  import opened ResolutionGraph

  datatype Value =
    | Atomic(atom: Atom)
    | Object(addr: nat)
    | CopyOf(of: Value)
    | Converted(to: Type, of: Value)

  /** One allocation: who made it, from what. */
  datatype Cell = Cell(maker: Maker, deps: seq<Value>)

  /** `made` holds each singleton whose once flag is set, `order` the cleanup list. */
  datatype State = State(heap: seq<Cell>, made: map<Key, Value>, order: seq<Key>)

  const START := State([], map[], [])

  /** A fatal log aborts the process, so only success carries a state on. */
  datatype Outcome = Ok(v: Value, st: State) | Fatal(why: Reason) | OutOfFuel
  datatype Outcomes = AllOk(vs: map<nat, Value>, st: State) | Failed(o: Outcome)

  function CopyValue(copy: bool, v: Value): Value {
    if copy then CopyOf(v) else v
  }

  function ConvertValue(from: Type, to: Type, v: Value): Value {
    if KeepsIdentity(from, to) then v else Converted(to, v)
  }

  /** The provider's object is set, then the provider is appended to the cleanup list. */
  function Created(k: Key, v: Value, st: State): State {
    st.(made := st.made[k := v], order := st.order + [k])
  }

  /** What happens once the sub-requests of a plan have their values. */
  function Finish(p: Plan, params: seq<Value>, vs: seq<Value>, st: State): (r: Outcome)
    requires !p.Stop? && |vs| == |SubRequests(p)|
    requires p.TakeParam? ==> p.i < |params|
    ensures r.Ok?
  {
    match p
    case TakeParam(i, copy) => Ok(CopyValue(copy, params[i]), st)
    case TakeAtom(atom, copy) => Ok(CopyValue(copy, Atomic(atom)), st)
    case Forward(to, dest, copy) => Ok(CopyValue(copy, ConvertValue(dest.ty, to, vs[0])), st)
    case Invoke(maker, _, copy) =>
      Ok(CopyValue(copy, Object(|st.heap|)), st.(heap := st.heap + [Cell(maker, vs)]))
    case Once(k, _, copy) =>
      Ok(CopyValue(copy, vs[0]), Created(k, vs[0], st))
  }

  /** The order in which an argument list is evaluated: any permutation, chosen anew for
      every request and every heap. */
  type Schedule = (Node, seq<Cell>) -> seq<nat>

  predicate IsPermutation(order: seq<nat>, count: nat) {
    && |order| == count
    && (forall i :: 0 <= i < |order| ==> order[i] < count)
    && (forall x: nat :: x < count ==> x in order)
  }

  function LeftToRight(count: nat): (order: seq<nat>)
    ensures |order| == count && forall i :: 0 <= i < count ==> order[i] == i
  {
    seq(count, i requires 0 <= i < count => i)
  }

  lemma LeftToRightIsPermutation(count: nat)
    ensures IsPermutation(LeftToRight(count), count)
  {
    var order := LeftToRight(count);
    forall x: nat | x < count ensures x in order {
      assert order[x] == x;
    }
  }

  function ArgumentOrder(sched: Schedule, n: Node, heap: seq<Cell>, count: nat): (order: seq<nat>)
    ensures IsPermutation(order, count)
    ensures IsPermutation(sched(n, heap), count) ==> order == sched(n, heap)
  {
    LeftToRightIsPermutation(count);
    var order := sched(n, heap);
    if IsPermutation(order, count) then order else LeftToRight(count)
  }

  function SubParams(p: Plan, params: seq<Value>): seq<Value> {
    if p.Once? then [] else params
  }

  predicate SameShape(ns: seq<Node>, params: seq<Value>) {
    forall i :: 0 <= i < |ns| ==> |ns[i].formals| == |params|
  }

  function Eval(cfg: Config, sched: Schedule, n: Node, params: seq<Value>, st: State, fuel: nat): Outcome
    requires |params| == |n.formals|
    decreases fuel, 0
  {
    var p := PlanAt(cfg, n);
    if fuel == 0 then OutOfFuel
    else if p.Stop? then Fatal(p.why)
    else if p.Once? && p.key in st.made then Ok(CopyValue(p.copy, st.made[p.key]), st)
    else
      var kids := Kids(cfg, n);
      var order := ArgumentOrder(sched, n, st.heap, |kids|);
      match EvalAll(cfg, sched, kids, SubParams(p, params), order, st, fuel - 1)
      case Failed(o) => o
      case AllOk(m, st1) => Finish(p, params, Arguments(m, |kids|), st1)
  }

  function Arguments(m: map<nat, Value>, count: nat): (vs: seq<Value>)
    requires forall i: nat :: i < count ==> i in m
    ensures |vs| == count && forall i :: 0 <= i < count ==> vs[i] == m[i]
  {
    seq(count, i requires 0 <= i < count => m[i])
  }

  function EvalAll(cfg: Config, sched: Schedule, ns: seq<Node>, params: seq<Value>, todo: seq<nat>,
                   st: State, fuel: nat): (r: Outcomes)
    requires SameShape(ns, params)
    requires forall i :: 0 <= i < |todo| ==> todo[i] < |ns|
    ensures r.AllOk? ==> forall x :: x in todo ==> x in r.vs
    ensures r.Failed? ==> !r.o.Ok?
    decreases fuel, 1 + |todo|
  {
    if todo == [] then AllOk(map[], st)
    else
      match Eval(cfg, sched, ns[todo[0]], params, st, fuel)
      case Fatal(why) => Failed(Fatal(why))
      case OutOfFuel => Failed(OutOfFuel)
      case Ok(v, st1) =>
        match EvalAll(cfg, sched, ns, params, todo[1..], st1, fuel)
        case Failed(o) => Failed(o)
        case AllOk(m, st2) => AllOk(m[todo[0] := v], st2)
  }

  /** A request with one sub-request is one step more than that sub-request. */
  lemma OneKid(cfg: Config, sched: Schedule, n: Node, params: seq<Value>, st: State, fuel: nat)
    requires |params| == |n.formals| && |Kids(cfg, n)| == 1 && fuel > 0 && !PlanAt(cfg, n).Stop?
    requires PlanAt(cfg, n).Once? ==> PlanAt(cfg, n).key !in st.made
    ensures var p := PlanAt(cfg, n);
      Eval(cfg, sched, n, params, st, fuel) ==
      match Eval(cfg, sched, Kids(cfg, n)[0], SubParams(p, params), st, fuel - 1)
      case Ok(v, st1) => Finish(p, params, [v], st1)
      case other => other
  {
    hide PlanOf, Kids, Finish;
    var kids := Kids(cfg, n);
    var order := ArgumentOrder(sched, n, st.heap, 1);
    var sub := SubParams(PlanAt(cfg, n), params);
    assert order == [0];
    var r := Eval(cfg, sched, kids[0], sub, st, fuel - 1);
    var all := EvalAll(cfg, sched, kids, sub, order, st, fuel - 1);
    assert order[1..] == [];
    if r.Ok? {
      assert EvalAll(cfg, sched, kids, sub, [], r.st, fuel - 1) == AllOk(map[], r.st);
      assert all == AllOk(map[0 := r.v], r.st);
      assert Arguments(all.vs, 1) == [r.v];
    }
  }

  // ---- Unfolding the heap ----

  /** Every address in a value lies below this bound. */
  function Top(v: Value): nat {
    match v
    case Atomic(_) => 0
    case Object(a) => a + 1
    case CopyOf(u) => Top(u)
    case Converted(_, u) => Top(u)
  }

  predicate Below(vs: seq<Value>, n: nat) {
    forall i :: 0 <= i < |vs| ==> Top(vs[i]) <= n
  }

  /** An object refers to older objects only. */
  predicate HeapOk(heap: seq<Cell>) {
    forall a :: 0 <= a < |heap| ==> Below(heap[a].deps, a)
  }

  function Unfold(heap: seq<Cell>, v: Value): Tree
    requires HeapOk(heap) && Top(v) <= |heap|
    decreases Top(v), v
  {
    match v
    case Atomic(a) => Leaf(a)
    case CopyOf(u) => Copied(Unfold(heap, u))
    case Converted(to, u) => ConvertedTo(to, Unfold(heap, u))
    case Object(a) =>
      var deps := heap[a].deps;
      Made(heap[a].maker, seq(|deps|, i requires 0 <= i < |deps| => Unfold(heap, deps[i])))
  }

  function UnfoldAll(heap: seq<Cell>, vs: seq<Value>): (ts: seq<Tree>)
    requires HeapOk(heap) && Below(vs, |heap|)
    ensures |ts| == |vs| && forall i :: 0 <= i < |vs| ==> ts[i] == Unfold(heap, vs[i])
  {
    seq(|vs|, i requires 0 <= i < |vs| => Unfold(heap, vs[i]))
  }

  lemma UnfoldObject(heap: seq<Cell>, a: nat)
    requires HeapOk(heap) && a < |heap|
    ensures Below(heap[a].deps, |heap|)
    ensures Unfold(heap, Object(a)) == Made(heap[a].maker, UnfoldAll(heap, heap[a].deps))
  {
  }

  lemma {:induction false} UnfoldStable(heap: seq<Cell>, longer: seq<Cell>, v: Value)
    requires HeapOk(heap) && HeapOk(longer) && heap <= longer && Top(v) <= |heap|
    ensures Unfold(longer, v) == Unfold(heap, v)
    decreases Top(v), v
  {
    match v
    case Atomic(_) =>
    case CopyOf(u) => UnfoldStable(heap, longer, u);
    case Converted(_, u) => UnfoldStable(heap, longer, u);
    case Object(a) =>
      var deps := heap[a].deps;
      assert longer[a] == heap[a];
      UnfoldObject(heap, a);
      UnfoldObject(longer, a);
      forall i | 0 <= i < |deps| ensures Unfold(longer, deps[i]) == Unfold(heap, deps[i]) {
        UnfoldStable(heap, longer, deps[i]);
      }
      assert UnfoldAll(longer, deps) == UnfoldAll(heap, deps);
  }

  /** Replaces parameters by the trees of the factory's arguments. */
  function Subst(t: Tree, env: seq<Tree>): Tree {
    match t
    case Leaf(_) => t
    case Parameter(i) => if i < |env| then env[i] else t
    case Made(maker, deps) =>
      Made(maker, seq(|deps|, i requires 0 <= i < |deps| => Subst(deps[i], env)))
    case Copied(u) => Copied(Subst(u, env))
    case ConvertedTo(to, u) => ConvertedTo(to, Subst(u, env))
  }

  // ---- The invariant of every run ----

  ghost predicate Extends(st: State, later: State) {
    && st.heap <= later.heap
    && st.order <= later.order
    && (forall k :: k in st.made ==> k in later.made && later.made[k] == st.made[k])
  }

  /** The cached object of a singleton unfolds to what the memo-free resolver makes of its
      creation request in an empty context. */
  ghost predicate CacheAgrees(cfg: Config, st: State, k: Key)
    requires HeapOk(st.heap) && k in st.made
  {
    && k in cfg.table && cfg.table[k].Singleton?
    && Top(st.made[k]) <= |st.heap|
    && Den(cfg, InnerNode(cfg, k)) == Defined(Unfold(st.heap, st.made[k]))
  }

  /** Creation order is topological: whatever a singleton needed was created before it. */
  ghost predicate Topological(cfg: Config, order: seq<Key>) {
    forall i, k :: 0 <= i < |order| && NeededBy(cfg, order[i], k) ==> k in order[..i]
  }

  ghost predicate NeededBy(cfg: Config, user: Key, k: Key) {
    user in cfg.table && cfg.table[user].Singleton? && Needs(cfg, InnerNode(cfg, user), k)
  }

  predicate NoDuplicates<T(==)>(xs: seq<T>) {
    forall i, j :: 0 <= i < j < |xs| ==> xs[i] != xs[j]
  }

  ghost predicate Inv(cfg: Config, st: State) {
    && HeapOk(st.heap)
    && (forall k :: k in st.made ==> CacheAgrees(cfg, st, k))
    && NoDuplicates(st.order)
    && (forall k :: k in st.made <==> k in st.order)
    && Topological(cfg, st.order)
  }

  lemma StartInv(cfg: Config)
    ensures Inv(cfg, START)
  {
  }
}
