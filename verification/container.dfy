/** The container's objects and their mutable fields: the scope context, the singleton
    providers and the injector. Their methods refine the pure resolver, and the checks in
    the code are preconditions or assertions here, so none of them ever fires. */
module Container {
  import opened CppTypes
  import opened Options
  import opened Bindings
  import opened BindTables
  import opened LocalContexts
  import opened Modules
  import opened ResolutionGraph
  import opened Resolver
  import opened ResolverCorrectness

  /** What a request gives back: a value, or the reason why the process is gone. */
  datatype Answer = Got(v: Value) | Died(why: Reason) | Overflow

  predicate Answers(a: Answer, o: Outcome) {
    match o
    case Ok(v, _) => a == Got(v)
    case Fatal(why) => a == Died(why)
    case OutOfFuel => a == Overflow
  }

  /** The cleanup array, sized by the init list, still has room when a new singleton comes. */
  lemma RoomForOne(cfg: Config, keys: seq<Key>, st: State, k: Key)
    requires KeysMatch(cfg, keys) && Inv(cfg, st)
    requires k in cfg.table && cfg.table[k].Singleton? && k !in st.made
    ensures |st.order| < |keys|
  {
    hide Den, Needs;
    var all := set i | 0 <= i < |keys| :: keys[i];
    var order := st.order + [k];
    forall x | x in order ensures x in all {
      if x != k { assert CacheAgrees(cfg, st, x); }
      assert keys[cfg.table[x].index] == x;
    }
    DistinctFit(order, all);
    ImageSize(keys);
  }

  lemma KeysDiffer(cfg: Config, keys: seq<Key>, i: nat)
    requires KeysMatch(cfg, keys) && i < |keys|
    ensures keys[i] in cfg.table && cfg.table[keys[i]].Singleton? && cfg.table[keys[i]].index == i
    ensures forall j :: 0 <= j < |keys| && j != i ==> keys[j] != keys[i]
  {
  }

  lemma OthersDiffer<T>(xs: seq<T>, i: nat)
    requires NoDuplicates(xs) && i < |xs|
    ensures forall j :: 0 <= j < |xs| && j != i ==> xs[j] != xs[i]
  {
  }

  lemma {:induction false} ImageSize(keys: seq<Key>)
    ensures |set i | 0 <= i < |keys| :: keys[i]| <= |keys|
  {
    var all := set i | 0 <= i < |keys| :: keys[i];
    if keys != [] {
      var n := |keys| - 1;
      var before := set i | 0 <= i < n :: keys[..n][i];
      ImageSize(keys[..n]);
      forall x | x in all ensures x in before + {keys[n]} {
        var i :| 0 <= i < |keys| && keys[i] == x;
        if i < n { assert keys[..n][i] == x; }
      }
      SubsetSize(all, before + {keys[n]});
    }
  }

  lemma SubsetSize<T>(a: set<T>, b: set<T>)
    requires a <= b
    ensures |a| <= |b|
  {
    assert b == a + (b - a);
  }

  /** The provider of one singleton; `ty` is the pointer type it provides. */
  class LazySingletonProvider {
    const context: ScopeSetupContext
    const ty: Type
    var called: bool
    var injector: Injector?
    var instance: Option<Value>
    var freed: bool

    constructor (context: ScopeSetupContext, ty: Type)
      modifies context`initList
      ensures this.context == context && this.ty == ty
      ensures !called && injector == null && instance == None && !freed
      ensures context.initList == old(context.initList) + [this]
    {
      this.context, this.ty := context, ty;
      called, injector, instance, freed := false, null, None, false;
      new;
      context.AddToInitList(this);
    }

    method Init(injector: Injector)
      requires this.injector == null || this.injector == injector
      modifies this`injector
      ensures this.injector == injector
    {
      this.injector := injector;
    }

    /** Deletes the object, if there is one. */
    method Cleanup() returns (deleted: Option<Value>)
      requires !freed
      modifies this`instance
      ensures instance == None && deleted == old(instance)
    {
      deleted := instance;
      instance := None;
    }

    /** The destructor; its check is the precondition. */
    method Free()
      requires instance == None && !freed
      modifies this`freed
      ensures freed
    {
      freed := true;
    }

    /** The once flag decides whether the object is created first. The flag is set only after
        creation, yet creation never runs twice. */
    method Get(fuel: nat, ghost i: nat) returns (a: Answer)
      requires injector != null && injector.Valid()
      requires i < |injector.keys| && injector.context.initList[i] == this
      modifies injector, injector.context, injector.context.initList, injector.context.cleanupList
      ensures a.Got? ==> injector == old(injector)
      ensures old(injector).SameLists(old(injector.context.initList), old(injector.context.cleanupList))
      ensures var inj := old(injector); var k := inj.keys[i]; var st := old(injector.st);
        k in st.made ==> a == Got(st.made[k]) && inj.Valid() && inj.st == st
      ensures var inj := old(injector); var k := inj.keys[i]; var st := old(injector.st);
        k !in st.made ==>
          var inner := Eval(inj.cfg, inj.sched, Node([], UnScopedRequest(ty)), [], st, fuel);
          && Answers(a, inner)
          && (a.Got? ==> inj.Valid() && inj.st == Created(k, a.v, inner.st))
      decreases fuel, 3
    {
      hide Den, Needs, Eval, PlanOf, Inv;
      if !called {
        a := Create(fuel, i);
        if !a.Got? {
          return;
        }
        called := true;
      }
      a := Got(instance.value);
    }

    method Create(fuel: nat, ghost i: nat) returns (a: Answer)
      requires injector != null && injector.Valid()
      requires i < |injector.keys| && injector.context.initList[i] == this
      requires injector.keys[i] !in injector.st.made
      modifies injector, injector.context, injector.context.initList, injector.context.cleanupList
      ensures a.Got? ==> injector == old(injector)
      ensures old(injector).SameLists(old(injector.context.initList), old(injector.context.cleanupList))
      ensures var inj := old(injector); var k := inj.keys[i];
        var inner := Eval(inj.cfg, inj.sched, Node([], UnScopedRequest(ty)), [], old(injector.st), fuel);
        && Answers(a, inner)
        && (a.Got? ==>
              && inj.Linked() && inj.MirrorsExcept(i) && Inv(inj.cfg, inj.st)
              && inj.st == Created(k, a.v, inner.st)
              && instance == Some(a.v))
      decreases fuel, 2
    {
      hide Den, Needs, Eval, PlanOf, Inv, Extends, Agrees, CreatedExactly, Injector.Linked, Injector.MirrorsExcept;
      injector.ProviderLinked(i);
      context.InvokeInitNow(this);
      var inj := injector;
      ghost var k, st := inj.keys[i], inj.st;
      assert InnerNode(inj.cfg, k) == Node([], UnScopedRequest(ty));
      a := inj.Get(UnScopedRequest(ty), fuel);
      if !a.Got? {
        return;
      }
      inj.ProviderLinked(i);
      EvalAgrees(inj.cfg, inj.sched, InnerNode(inj.cfg, k), [], st, fuel);
      CreationKeepsInv(inj.cfg, k, a.v, st, inj.st);
      RoomForOne(inj.cfg, inj.keys, inj.st, k);
      Record(a.v, i);
    }

    /** The new object is set, and the provider is appended to the cleanup list. */
    method Record(v: Value, ghost i: nat)
      requires injector != null && injector.Linked() && injector.MirrorsExcept(-1)
      requires i < |injector.keys| && injector.context.initList[i] == this
      requires injector.keys[i] !in injector.st.made && |injector.st.order| < |injector.keys|
      modifies this`instance, injector`st
      modifies injector.context`locked, injector.context`cleanupListSize, injector.context.cleanupList
      ensures injector.Linked() && injector.MirrorsExcept(i) && instance == Some(v)
      ensures injector.st == Created(injector.keys[i], v, old(injector.st))
    {
      hide KeysMatch, NoDuplicates;
      KeysDiffer(injector.cfg, injector.keys, i);
      OthersDiffer(injector.context.initList, i);
      instance := Some(v);
      context.AddToCleanupList(this);
      injector.st := Created(injector.keys[i], v, injector.st);
    }
  }

  class ScopeSetupContext {
    var injector: Injector?
    var initList: seq<LazySingletonProvider>
    var locked: bool
    var cleanupList: array?<LazySingletonProvider?>
    var cleanupListSize: nat
    var freed: bool

    constructor ()
      ensures injector == null && initList == [] && !locked && cleanupList == null
      ensures cleanupListSize == 0 && !freed
    {
      injector, initList, locked, cleanupList, cleanupListSize, freed := null, [], false, null, 0, false;
    }

    method AddToInitList(init: LazySingletonProvider)
      requires init !in initList
      modifies this`initList
      ensures initList == old(initList) + [init]
    {
      initList := initList + [init];
    }

    /** Allocates the cleanup array for as many providers as there are, then tells them the injector. */
    method Init(injector: Injector)
      requires forall p :: p in initList ==> p.injector == null || p.injector == injector
      modifies this`injector, this`cleanupList, (set p | p in initList)`injector
      ensures this.injector == injector
      ensures cleanupList != null && fresh(cleanupList) && cleanupList.Length == |initList|
      ensures forall p :: p in initList ==> p.injector == injector
    {
      this.injector := injector;
      cleanupList := new LazySingletonProvider?[|initList|](_ => null);
      for i := 0 to |initList|
        modifies (set p | p in initList)`injector
        invariant forall p :: p in initList[..i] ==> p.injector == injector
        invariant forall p :: p in initList ==> p.injector == null || p.injector == injector
      {
        initList[i].Init(injector);
      }
    }

    /** The cleanup list holds providers that exist, each once. */
    ghost predicate Orderly()
      reads this, initList, cleanupList
    {
      && !locked && !freed
      && (cleanupListSize > 0 ==> cleanupList != null)
      && (cleanupList != null ==> cleanupListSize <= cleanupList.Length)
      && (forall i :: 0 <= i < cleanupListSize ==>
            && cleanupList[i] in initList && !cleanupList[i].freed && cleanupList[i].instance.Some?)
      && (forall i, j :: 0 <= i < j < cleanupListSize ==> cleanupList[i] != cleanupList[j])
    }

    /** Deletes the created objects in the reverse order of their creation. */
    method Cleanup() returns (deleted: seq<Value>)
      requires Orderly()
      modifies this`locked, initList`instance
      ensures !locked && |deleted| == cleanupListSize
      ensures forall i :: 0 <= i < cleanupListSize ==>
        deleted[cleanupListSize - 1 - i] == old(cleanupList[i].instance).value
      ensures forall i :: 0 <= i < cleanupListSize ==> cleanupList[i].instance == None
      ensures forall p :: p in initList ==> p.instance == None || p.instance == old(p.instance)
    {
      Lock();
      deleted := [];
      var i := cleanupListSize;
      while i > 0
        modifies initList`instance
        invariant 0 <= i <= cleanupListSize && |deleted| == cleanupListSize - i
        invariant forall j :: i <= j < cleanupListSize ==>
          deleted[cleanupListSize - 1 - j] == old(cleanupList[j].instance).value
        invariant forall j :: 0 <= j < i ==> cleanupList[j].instance == old(cleanupList[j].instance)
        invariant forall j :: i <= j < cleanupListSize ==> cleanupList[j].instance == None
        invariant forall p :: p in initList ==> p.instance == None || p.instance == old(p.instance)
      {
        i := i - 1;
        var d := cleanupList[i].Cleanup();
        deleted := deleted + [d.value];
      }
      Unlock();
    }

    method Free()
      requires !freed
      modifies this`freed
      ensures freed
    {
      freed := true;
    }

    method InvokeInitNow(init: LazySingletonProvider)
      requires injector != null
      requires init.injector == null || init.injector == injector
      modifies init`injector
      ensures init.injector == injector
    {
      init.Init(injector);
    }

    method Lock()
      requires !locked
      modifies this`locked
      ensures locked
    {
      locked := true;
    }

    method Unlock()
      requires locked
      modifies this`locked
      ensures !locked
    {
      locked := false;
    }

    method AddToCleanupList(cleanup: LazySingletonProvider)
      requires cleanup in initList && !locked
      requires cleanupList != null && cleanupListSize < cleanupList.Length
      modifies this`locked, this`cleanupListSize, cleanupList
      ensures !locked && cleanupListSize == old(cleanupListSize) + 1
      ensures cleanupList[..] == old(cleanupList[..])[old(cleanupListSize) := cleanup]
    {
      Lock();
      cleanupList[cleanupListSize] := cleanup;
      cleanupListSize := cleanupListSize + 1;
      Unlock();
    }
  }

  class Injector {
    const table: BindTable
    const classes: map<Type, ClassInfo>
    const sched: Schedule
    const context: ScopeSetupContext
    ghost const cfg: Config
    ghost const keys: seq<Key>
    var heap: seq<Cell>
    ghost var st: State

    constructor (table: BindTable, classes: map<Type, ClassInfo>, sched: Schedule, context: ScopeSetupContext,
                 ghost keys: seq<Key>)
      ensures this.table == table && this.classes == classes && this.sched == sched
      ensures this.context == context && this.keys == keys
      ensures cfg == Config(Entries(table.bindMap), classes)
      ensures heap == [] && st == START
    {
      this.table, this.classes, this.sched, this.context, this.keys := table, classes, sched, context, keys;
      cfg := Config(Entries(table.bindMap), classes);
      heap, st := [], START;
    }

    ghost predicate SameLists(initList: seq<LazySingletonProvider>, cleanupList: array?<LazySingletonProvider?>)
      reads context
    {
      context.initList == initList && context.cleanupList == cleanupList
    }

    /** The objects are wired up as `CreateInjector` leaves them. */
    ghost predicate Linked()
      reads this, table, context, context.initList, context.cleanupList
    {
      && table.Valid() && cfg == Config(Entries(table.bindMap), classes)
      && context.injector == this && !context.locked && !context.freed
      && context.cleanupList != null
      && context.cleanupList.Length == |context.initList| == |keys|
      && NoDuplicates(context.initList)
      && KeysMatch(cfg, keys)
      && forall i :: 0 <= i < |keys| ==>
           && context.initList[i].injector == this && context.initList[i].context == context
           && !context.initList[i].freed && context.initList[i].ty == cfg.table[keys[i]].ty
    }

    ghost function ObjectOf(k: Key): Option<Value>
      reads this
    {
      if k in st.made then Some(st.made[k]) else None
    }

    /** Once flags, objects, heap and cleanup array say what the abstract state says; the
        `e`-th provider, if any, is still between its creation and its once flag. */
    ghost predicate MirrorsExcept(e: int)
      requires Linked()
      reads this, table, context, context.initList, context.cleanupList
    {
      && heap == st.heap
      && (forall i :: 0 <= i < |keys| ==>
            && (i != e ==> context.initList[i].called == (keys[i] in st.made))
            && (i != e ==> context.initList[i].instance == ObjectOf(keys[i])))
      && context.cleanupListSize == |st.order| <= |keys|
      && (forall i :: 0 <= i < |st.order| ==>
            && st.order[i] in cfg.table && cfg.table[st.order[i]].Singleton?
            && context.cleanupList[i] == context.initList[cfg.table[st.order[i]].index])
    }

    ghost predicate Valid()
      reads this, table, context, context.initList, context.cleanupList
    {
      Linked() && MirrorsExcept(-1) && Inv(cfg, st)
    }

    /** The four inject handlers: the request is looked up in the local context, in the bind
        table, or among the default entries. For a singleton, also the position of its provider. */
    method Select(local: LocalContext, req: Request) returns (p: Plan, index: nat)
      requires Linked()
      ensures p == PlanAt(cfg, local.NodeOf(req))
      ensures p.Once? ==>
        p.key in cfg.table && cfg.table[p.key].Singleton? && index == cfg.table[p.key].index
    {
      hide ReadAs;
      var spec, tid := TypeSpecifier(req.ty), KeyOf(req);
      index := 0;
      if req.inject.Assisted? {
        var slot := local.FindEntry(tid);
        SlotIs(local.Formals(), tid, if slot == None then |local.args| else slot.value);
        p := if slot == None then Stop(MissingAssisted)
             else PlanArgument(local.args[slot.value].formal.ty, slot.value, req);
        return;
      }
      if InternalClass(classes, spec) {
        return PlanInternal(classes[spec], req), 0;
      }
      var found := table.FindEntry(tid);
      if found != None {
        var e := found.value.entry;
        assert tid in cfg.table && cfg.table[tid] == e;
        return PlanEntry(e, req), if e.Singleton? then e.index else 0;
      }
      assert tid !in cfg.table;
      p := if spec in classes then PlanEntry(DefaultEntry(classes[spec], spec), req) else Stop(MissingBinding);
    }

    lemma ProviderLinked(i: nat)
      requires Linked() && i < |keys|
      ensures |context.initList| == |keys| && KeysMatch(cfg, keys)
      ensures context.injector == this && context.initList[i].injector == this
      ensures context.initList[i].context == context
      ensures keys[i] in cfg.table && cfg.table[keys[i]].Singleton?
      ensures context.initList[i].ty == cfg.table[keys[i]].ty
    {
    }

    lemma ProviderOf(k: Key)
      requires Linked() && k in cfg.table && cfg.table[k].Singleton?
      ensures var i := cfg.table[k].index; i < |keys| && keys[i] == k
    {
    }

    lemma HeapsAgree()
      requires Valid()
      ensures heap == st.heap
    {
    }

    /** `InjectorUtil::GetActualType` with a local context, refined to the pure resolver. */
    method Resolve(local: LocalContext, req: Request, fuel: nat) returns (a: Answer)
      requires Valid() && Below(local.Values(), |heap|)
      modifies this, context, context.initList, context.cleanupList
      ensures SameLists(old(context.initList), old(context.cleanupList))
      ensures var r := Eval(cfg, sched, local.NodeOf(req), local.Values(), old(st), fuel);
        Answers(a, r) && (a.Got? ==> Valid() && st == r.st)
      decreases fuel, 0
    {
      hide Den, Needs, PlanOf, Inv, Finish, Agrees, CreatedExactly, Extends, Linked, MirrorsExcept;
      HeapsAgree();
      var p, index := Select(local, req);
      if fuel == 0 {
        return Overflow;
      }
      if p.Stop? {
        return Died(p.why);
      }
      if p.Once? {
        a := ResolveSingleton(local, req, p, index, fuel);
        return;
      }
      var rs := SubRequests(p);
      KidsInContext(cfg, local, req);
      var bad, m := ResolveAll(local, rs, ArgumentOrder(sched, local.NodeOf(req), heap, |rs|), fuel - 1);
      if bad.Some? {
        return bad.value;
      }
      a := Complete(p, local.Values(), Arguments(m, |rs|));
      EvalAgrees(cfg, sched, local.NodeOf(req), local.Values(), old(st), fuel);
    }

    /** The constructor or provider call, or the hand-over of what is already there. */
    method Complete(p: Plan, params: seq<Value>, vs: seq<Value>) returns (a: Answer)
      requires !p.Stop? && !p.Once? && |vs| == |SubRequests(p)|
      requires p.TakeParam? ==> p.i < |params|
      requires Linked() && MirrorsExcept(-1)
      modifies this`heap, this`st
      ensures var r := Finish(p, params, vs, old(st)); a == Got(r.v) && st == r.st
      ensures Linked() && MirrorsExcept(-1)
    {
      match p {
        case TakeParam(i, copy) =>
          a := Got(CopyValue(copy, params[i]));
        case TakeAtom(atom, copy) =>
          a := Got(CopyValue(copy, Atomic(atom)));
        case Forward(to, dest, copy) =>
          a := Got(CopyValue(copy, ConvertValue(dest.ty, to, vs[0])));
        case Invoke(maker, _, copy) =>
          a := Got(CopyValue(copy, Object(|heap|)));
          heap := heap + [Cell(maker, vs)];
          st := st.(heap := heap);
      }
    }

    /** `Injector::Get`: one request in a fresh, empty local context. */
    method Get(req: Request, stack: nat) returns (a: Answer)
      requires Valid()
      modifies this, context, context.initList, context.cleanupList
      ensures SameLists(old(context.initList), old(context.cleanupList))
      ensures var r := Eval(cfg, sched, Node([], req), [], old(st), stack);
        Answers(a, r) && (a.Got? ==> Valid() && st == r.st)
      decreases stack, 1
    {
      hide Den, Needs, Eval, PlanOf, Inv;
      var local := new LocalContext([]);
      a := Resolve(local, req, stack);
    }

    /** `RealFactory::Get`: the result type requested in a context of the passed arguments. */
    method FactoryGet(sig: Signature, tag: Label, args: seq<Value>, stack: nat) returns (a: Answer)
      requires Valid() && |args| == |sig.params| && Below(args, |heap|)
      modifies this, context, context.initList, context.cleanupList
      ensures SameLists(old(context.initList), old(context.cleanupList))
      ensures var r := Eval(cfg, sched, FactoryCall(sig, tag), args, old(st), stack);
        Answers(a, r) && (a.Got? ==> Valid() && st == r.st)
    {
      hide Den, Needs, Eval, PlanOf, Inv;
      var local := new LocalContext(
        seq(|args|, i requires 0 <= i < |args| => Argument(FormalOf(sig.params[i]), args[i])));
      assert local.Values() == args;
      assert local.Formals() == FactoryCall(sig, tag).formals;
      a := Resolve(local, Request(NormalInject, tag, sig.result), stack);
    }

    method ResolveSingleton(local: LocalContext, req: Request, p: Plan, index: nat, fuel: nat) returns (a: Answer)
      requires Valid() && Below(local.Values(), |heap|)
      requires p == PlanAt(cfg, local.NodeOf(req)) && p.Once? && fuel > 0
      requires p.key in cfg.table && cfg.table[p.key].Singleton? && index == cfg.table[p.key].index
      modifies this, context, context.initList, context.cleanupList
      ensures SameLists(old(context.initList), old(context.cleanupList))
      ensures var r := Eval(cfg, sched, local.NodeOf(req), local.Values(), old(st), fuel);
        Answers(a, r) && (a.Got? ==> Valid() && st == r.st)
      decreases fuel - 1, 4
    {
      hide Den, Needs, PlanOf, Inv, Eval, Linked, MirrorsExcept;
      ProviderOf(p.key);
      ProviderLinked(index);
      OnceOutcome(cfg, sched, local.NodeOf(req), local.Values(), st, fuel);
      a := context.initList[index].Get(fuel - 1, index);
      if a.Got? {
        a := Got(CopyValue(p.copy, a.v));
      }
    }

    method ResolveAll(local: LocalContext, rs: seq<Request>, todo: seq<nat>, fuel: nat)
      returns (bad: Option<Answer>, vs: map<nat, Value>)
      requires Valid() && Below(local.Values(), |heap|)
      requires forall i :: 0 <= i < |todo| ==> todo[i] < |rs|
      modifies this, context, context.initList, context.cleanupList
      ensures SameLists(old(context.initList), old(context.cleanupList))
      ensures match EvalAll(cfg, sched, local.NodesOf(rs), local.Values(), todo, old(st), fuel)
        case AllOk(m, later) => bad == None && vs == m && Valid() && st == later
        case Failed(o) => bad.Some? && Answers(bad.value, o)
      decreases fuel, 1 + |todo|
    {
      hide Den, Needs, PlanOf, Inv, Eval;
      if todo == [] {
        return None, map[];
      }
      var a := Resolve(local, rs[todo[0]], fuel);
      if !a.Got? {
        return Some(a), map[];
      }
      EvalAgrees(cfg, sched, local.NodeOf(rs[todo[0]]), local.Values(), old(st), fuel);
      bad, vs := ResolveAll(local, rs, todo[1..], fuel);
      if bad == None {
        vs := vs[todo[0] := a.v];
      }
    }
  }

  /** What a singleton request comes to: the cached object, or its creation. */
  lemma OnceOutcome(cfg: Config, sched: Schedule, n: Node, params: seq<Value>, st: State, fuel: nat)
    requires |params| == |n.formals| && PlanAt(cfg, n).Once? && fuel > 0
    ensures PlanAt(cfg, n).key in cfg.table && cfg.table[PlanAt(cfg, n).key].Singleton?
    ensures var p := PlanAt(cfg, n);
      Eval(cfg, sched, n, params, st, fuel) ==
      if p.key in st.made then Ok(CopyValue(p.copy, st.made[p.key]), st)
      else match Eval(cfg, sched, InnerNode(cfg, p.key), [], st, fuel - 1)
        case Ok(v, later) => Ok(CopyValue(p.copy, v), Created(p.key, v, later))
        case other => other
  {
    hide PlanOf, Kids;
    OnceIsSingleton(cfg, n);
    if PlanAt(cfg, n).key !in st.made {
      OneKid(cfg, sched, n, params, st, fuel);
    }
  }

  /** Sub-requests of anything but a singleton are resolved in the context of the request. */
  lemma KidsInContext(cfg: Config, local: LocalContext, req: Request)
    requires !PlanAt(cfg, local.NodeOf(req)).Once?
    ensures Kids(cfg, local.NodeOf(req)) == local.NodesOf(SubRequests(PlanAt(cfg, local.NodeOf(req))))
  {
    hide PlanOf;
  }
}
