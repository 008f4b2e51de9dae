/** Whole programs, end to end: what the compiler's checks guarantee about results and
    failures, when a program crashes, and that the order of bindings does not matter. */
module Programs {
  import opened CppTypes
  import opened Bindings
  import opened BindTables
  import opened Modules
  import opened ResolutionGraph
  import opened Resolver
  import opened Typing
  import opened TypedPrograms
  import opened Runs
  import opened Lifecycle
  import opened Sharing

  // ---- Types ----

  /** The user's module compiles, and so do the classes; the context is an ordinary class. */
  predicate ProgramCompiles(user: Module, classes: map<Type, ClassInfo>, h: Hierarchy) {
    var cs := FlattenAll(user.body); var cfg := Config(map[], classes);
    && (forall i :: 0 <= i < |cs| ==> Compiles(cfg, h, cs[i]))
    && (forall s :: s in classes ==> TypedClass(cfg, s, classes[s]))
    && !IsInternal(cfg, CONTEXT)
  }

  lemma ConfigIsTyped(user: Module, classes: map<Type, ClassInfo>, h: Hierarchy)
    requires ProgramCompiles(user, classes, h)
    ensures ApplyAll(EMPTY, WrapperCalls(user)).Some? && WellTyped(ConfigOf(user, classes), h)
  {
    hide ApplyAll, WellTyped, Compiles, FlattenAll;
    WrapperNeverFatal(user);
    WrapperCallsShape(user);
    var cs := WrapperCalls(user);
    forall i | 0 <= i < |cs| ensures Compiles(Config(map[], classes), h, cs[i]) {
      if i == 0 || i == |cs| - 1 {
        WrapperCompiles(user, classes, h);
      } else {
        assert cs[i] == FlattenAll(user.body)[i-1];
      }
    }
    ConfiguredIsTyped(cs, classes, h);
  }

  lemma WrapperCompiles(user: Module, classes: map<Type, ClassInfo>, h: Hierarchy)
    requires !IsInternal(Config(map[], classes), CONTEXT)
    ensures Compiles(Config(map[], classes), h, Wrapper(user).body[0])
    ensures Compiles(Config(map[], classes), h, Wrapper(user).body[2])
  {
  }

  /** A program that compiles, with callers that do, returns values of the types asked for, and
      logs a fatal error only for a missing binding, a missing assisted argument or a
      conversion that is not allowed, in reach of one of its calls. */
  lemma ProgramIsTyped(user: Module, classes: map<Type, ClassInfo>, h: Hierarchy, sched: Schedule, stack: nat,
                       calls: seq<Call>, r: Report)
    requires IsHierarchy(h) && ProgramCompiles(user, classes, h)
    requires ApplyAll(EMPTY, WrapperCalls(user)).Some?
    requires TypedSteps(ConfigOf(user, classes), h, StepsOf(calls, sched, stack))
    requires Reports(r, user, ConfigOf(user, classes), ApplyAll(EMPTY, WrapperCalls(user)).value.owned,
                     StepsOf(calls, sched, stack))
    ensures var cfg, steps := ConfigOf(user, classes), StepsOf(calls, sched, stack);
      match r
      case Finished(results, _) =>
        && |results| == |calls| && RunOf(cfg, steps).Running?
        && forall i :: 0 <= i < |calls| ==> Fits(h, RunOf(cfg, steps).st.heap, results[i], steps[i].n.req.ty)
      case Crashed(ByFatal(why)) =>
        && why != WrongTypeId && why != WrongDowncast
        && exists i :: 0 <= i < |calls| && CauseInReach(cfg, steps[i].n, why)
      case _ => true
  {
    hide ApplyAll, RunOf, WellTyped, TypedSteps, ProgramCompiles, DistinctKeys, Fits, CauseInReach, ConfigOf, IsHierarchy;
    var cfg, steps := ConfigOf(user, classes), StepsOf(calls, sched, stack);
    ConfigIsTyped(user, classes, h);
    if RunOf(cfg, steps).Running? {
      RunIsTyped(cfg, h, steps);
    } else {
      RunFailsExactly(cfg, h, steps);
    }
  }

  // ---- Crashes ----

  /** A program is rejected exactly for a key bound twice. It crashes if some call is made that
      cannot be answered; with a stack as deep as there are bindings it crashes only then, and
      overflows the stack only on a cycle. */
  lemma CrashesExactly(user: Module, classes: map<Type, ClassInfo>, sched: Schedule, stack: nat,
                       calls: seq<Call>, r: Report)
    requires ApplyAll(EMPTY, WrapperCalls(user)).Some?
    requires Reports(r, user, ConfigOf(user, classes), ApplyAll(EMPTY, WrapperCalls(user)).value.owned,
                     StepsOf(calls, sched, stack))
    ensures r.Rejected? <==> !DistinctKeys(WrapperCalls(user))
    ensures var cfg, steps := ConfigOf(user, classes), StepsOf(calls, sched, stack);
      DistinctKeys(WrapperCalls(user)) ==>
        && ((exists i :: FailsAt(cfg, steps, i)) ==> r.Crashed?)
        && (stack >= Limit(cfg) ==>
              && (r.Crashed? <==> exists i :: FailsAt(cfg, steps, i))
              && (r == Crashed(ByOverflow) ==> exists i :: 0 <= i < |steps| && !Acyclic(cfg, steps[i].n)))
  {
    hide ApplyAll, RunOf, DistinctKeys, ConfigOf, FailsAt, Acyclic;
    var cfg, steps := ConfigOf(user, classes), StepsOf(calls, sched, stack);
    HaltsExactly(cfg, steps);
    if stack >= Limit(cfg) && RunOf(cfg, steps) == Halted(ByOverflow) {
      OverflowMeansCycle(cfg, steps);
    }
  }

  // ---- Teardown ----

  lemma TypedIsBound(cfg: Config, h: Hierarchy)
    requires WellTyped(cfg, h)
    ensures WellBound(cfg)
  {
    forall k | k in cfg.table ensures WellBoundEntry(cfg, k, cfg.table[k]) {
      assert TypedEntry(cfg, h, k, cfg.table[k]);
    }
  }

  /** A program that compiles and runs to its end tears down safely: its log deletes every
      singleton and every entry once, singletons before entries, dependents before what they
      needed, and the context last. */
  lemma ProgramTearsDownSafely(user: Module, classes: map<Type, ClassInfo>, h: Hierarchy, sched: Schedule, stack: nat,
                               calls: seq<Call>, r: Report)
    requires UserModule(user) && ProgramCompiles(user, classes, h)
    requires ApplyAll(EMPTY, WrapperCalls(user)).Some? && r.Finished?
    requires Reports(r, user, ConfigOf(user, classes), ApplyAll(EMPTY, WrapperCalls(user)).value.owned,
                     StepsOf(calls, sched, stack))
    ensures var cfg, run := ConfigOf(user, classes), RunOf(ConfigOf(user, classes), StepsOf(calls, sched, stack));
      var owned := ApplyAll(EMPTY, WrapperCalls(user)).value.owned;
      && run.Running? && DeletesOnce(r.log, owned, run.st) && DeletesInOrder(r.log, cfg, run.st)
  {
    hide ApplyAll, RunOf, WellTyped, WellBound, UserModule, ProgramCompiles, DistinctKeys, ConfigOf, DeletesOnce,
      DeletesInOrder, TeardownLog;
    var cfg, steps := ConfigOf(user, classes), StepsOf(calls, sched, stack);
    ConfigIsTyped(user, classes, h);
    TypedIsBound(cfg, h);
    TeardownSafety(user, cfg, steps);
  }

  // ---- Sharing ----

  /** A program that compiles and runs to its end: whoever asked for a singleton holds its one
      object, and whatever else was constructed for an argument has one holder. */
  lemma ProgramShares(user: Module, classes: map<Type, ClassInfo>, h: Hierarchy, steps: seq<Step>)
    requires ProgramCompiles(user, classes, h)
    requires ApplyAll(EMPTY, WrapperCalls(user)).Some? && RunOf(ConfigOf(user, classes), steps).Running?
    ensures var cfg := ConfigOf(user, classes); var st := RunOf(cfg, steps).st;
      (forall c :: c in st.heap ==> SharesSingletons(cfg, st, c)) && Separate(cfg, st)
  {
    hide ApplyAll, RunOf, WellTyped, WellBound, ProgramCompiles, ConfigOf, SharesSingletons, Separate;
    ConfigIsTyped(user, classes, h);
    TypedIsBound(ConfigOf(user, classes), h);
    SharedDependencies(ConfigOf(user, classes), steps);
    OwnObjects(ConfigOf(user, classes), steps);
  }

  // ---- Calls ----

  /** Each result of a finished program is what its call asked for: `Get` resolves its request in
      an empty context, and a factory resolves its result type, under the factory's label, in a
      context of the arguments. */
  lemma CallsAnswered(user: Module, classes: map<Type, ClassInfo>, sched: Schedule, stack: nat,
                      calls: seq<Call>, r: Report, i: nat)
    requires ApplyAll(EMPTY, WrapperCalls(user)).Some? && r.Finished? && i < |calls|
    requires Reports(r, user, ConfigOf(user, classes), ApplyAll(EMPTY, WrapperCalls(user)).value.owned,
                     StepsOf(calls, sched, stack))
    ensures var cfg, steps := ConfigOf(user, classes), StepsOf(calls, sched, stack);
      && |r.results| == |calls| && RunOf(cfg, steps[..i]).Running? && RunOf(cfg, steps[..i+1]).Running?
      && var st, later := RunOf(cfg, steps[..i]).st, RunOf(cfg, steps[..i+1]).st;
         match calls[i]
         case Get(req) => Eval(cfg, sched, Node([], req), [], st, stack) == Ok(r.results[i], later)
         case FactoryGet(sig, tag, args) =>
           && |args| == |sig.params|
           && exists formals :: AsParams(sig.params, formals)
                && Eval(cfg, sched, Node(formals, Request(NormalInject, tag, sig.result)), args, st, stack)
                   == Ok(r.results[i], later)
  {
    hide ApplyAll, RunOf, DistinctKeys, ConfigOf, Eval;
    var cfg, steps := ConfigOf(user, classes), StepsOf(calls, sched, stack);
    StepOfRun(cfg, steps, i);
    match calls[i]
    case Get(_) =>
    case FactoryGet(sig, tag, args) =>
      assert AsParams(sig.params, FactoryCall(sig, tag).formals);
  }

  /** The local context of a factory call: for each parameter, the assisted key of its label and
      type, and the type. */
  predicate AsParams(params: seq<Param>, formals: seq<Formal>) {
    && |formals| == |params|
    && forall j :: 0 <= j < |params| ==>
         var ty := ActualType(params[j].ty);
         formals[j] == Formal(Key(Assisted, params[j].tag, TypeSpecifier(ty)), ty)
  }

  // ---- Cleanup actions ----

  function ActionOfEvent(e: Event): seq<Action> {
    if e.EntryDeleted? && e.o.onDelete.UserAction? then [e.o.onDelete] else []
  }

  /** The user actions that a teardown runs, in order. */
  function ActionsRun(log: seq<Event>): seq<Action> {
    if log == [] then [] else ActionsRun(log[..|log|-1]) + ActionOfEvent(log[|log|-1])
  }

  function Reversed<T>(s: seq<T>): seq<T> {
    if s == [] then [] else Reversed(s[1..]) + [s[0]]
  }

  lemma {:induction false} ActionsRunAppend(log: seq<Event>, more: seq<Event>)
    ensures ActionsRun(log + more) == ActionsRun(log) + ActionsRun(more)
    decreases |more|
  {
    hide ActionOfEvent;
    if more == [] {
      assert log + more == log;
    } else {
      ActionsRunAppend(log, more[..|more|-1]);
      assert (log + more)[..|log + more| - 1] == log + more[..|more|-1];
      assert (log + more)[|log + more| - 1] == more[|more|-1];
    }
  }

  lemma {:induction false} NoActions(log: seq<Event>)
    requires forall i :: 0 <= i < |log| ==> log[i].SingletonDeleted?
    ensures ActionsRun(log) == []
  {
    if log != [] { NoActions(log[..|log|-1]); }
  }

  /** The entry of this call runs exactly the user action that the call passed, if any. */
  predicate SameAction(o: Owned, c: Command) {
    ActionOfEvent(EntryDeleted(o)) == PassedBy(c)
  }

  lemma {:induction false} EntriesRunActions(owned: seq<Owned>, cs: seq<Command>)
    requires |owned| == |cs| && forall i :: 0 <= i < |cs| ==> SameAction(owned[i], cs[i])
    ensures ActionsRun(EntriesBackwards(owned)) == Reversed(PassedActions(cs))
    decreases |cs|
  {
    hide ActionOfEvent, PassedBy;
    if cs == [] {
      assert EntriesBackwards(owned) == [];
    } else {
      var rest := owned[1..];
      EntriesRunActions(rest, cs[1..]);
      assert EntriesBackwards(owned) == EntriesBackwards(rest) + [EntryDeleted(owned[0])];
      ActionsRunAppend(EntriesBackwards(rest), [EntryDeleted(owned[0])]);
      assert SameAction(owned[0], cs[0]);
      assert [EntryDeleted(owned[0])][..0] == [];
      ReversedStep(cs);
    }
  }

  lemma ReversedStep(cs: seq<Command>)
    requires cs != []
    ensures Reversed(PassedActions(cs)) == Reversed(PassedActions(cs[1..])) + PassedBy(cs[0])
    ensures ActionsRun([]) == []
  {
    var more := PassedActions(cs[1..]);
    if PassedBy(cs[0]) == [] {
      assert PassedActions(cs) == more;
    } else {
      var a := PassedBy(cs[0])[0];
      assert PassedActions(cs) == [a] + more && ([a] + more)[1..] == more;
    }
  }

  /** The teardown of a finished program runs every user action that its module passed, once for
      each time it was passed, in reverse order, and no other, rejected bindings included. */
  lemma ActionsRunBackwards(user: Module, cfg: Config, steps: seq<Step>)
    requires UserModule(user) && ApplyAll(EMPTY, WrapperCalls(user)).Some? && RunOf(cfg, steps).Running?
    ensures var st := RunOf(cfg, steps).st; var owned := ApplyAll(EMPTY, WrapperCalls(user)).value.owned;
      && (forall k :: k in st.order ==> k in st.made)
      && ActionsRun(TeardownLog(owned, st)) == Reversed(PassedActions(FlattenAll(user.body)))
  {
    hide ApplyAll, RunOf, TeardownLog, FlattenAll, PassedActions, ActionsRun, Reversed, EntryOf;
    var cs := WrapperCalls(user);
    var owned := ApplyAll(EMPTY, cs).value.owned;
    var st := RunOf(cfg, steps).st;
    TeardownExactly(user, cfg, steps);
    TableExactly(cs);
    forall i | 0 <= i < |cs| ensures SameAction(owned[i], cs[i]) {
      CleanupsKept(cs, i);
    }
    var log := TeardownLog(owned, st);
    var n := |st.order|;
    assert log == log[..n] + log[n..] && log[n..] == EntriesBackwards(owned);
    NoActions(log[..n]);
    ActionsRunAppend(log[..n], log[n..]);
    EntriesRunActions(owned, cs);
    WrapperPassesNothing(user);
  }

  lemma WrapperPassesNothing(user: Module)
    ensures PassedActions(WrapperCalls(user)) == PassedActions(FlattenAll(user.body))
  {
    hide FlattenAll;
    WrapperCallsShape(user);
    var first, last := [Wrapper(user).body[0]], [Wrapper(user).body[2]];
    PassedAppend(first + FlattenAll(user.body), last);
    PassedAppend(first, FlattenAll(user.body));
    assert PassedActions(first) == [] by { assert first[1..] == []; }
    assert PassedActions(last) == [] by { assert last[1..] == []; }
  }

  // ---- The order of bindings ----

  /** Two configurations that differ at most in the positions of their providers. */
  predicate SameBindings(a: Config, b: Config) {
    && a.classes == b.classes && a.table.Keys == b.table.Keys
    && forall k :: k in a.table ==> SameBinding(a.table[k], b.table[k])
  }

  lemma SameKids(a: Config, b: Config, n: Node)
    requires SameBindings(a, b)
    ensures PlanAt(a, n) == PlanAt(b, n) && Kids(a, n) == Kids(b, n)
  {
    assert PlanAt(a, n) == PlanAt(b, n) by {
      var k := KeyOf(n.req);
      assert k in a.table <==> k in b.table;
    }
  }

  lemma {:induction false} SameEval(a: Config, b: Config, sched: Schedule, n: Node, params: seq<Value>, st: State, fuel: nat)
    requires SameBindings(a, b) && |params| == |n.formals|
    ensures Eval(a, sched, n, params, st, fuel) == Eval(b, sched, n, params, st, fuel)
    decreases fuel, 0
  {
    hide PlanOf, Kids, Finish, SameBindings;
    SameKids(a, b, n);
    var p, kids := PlanAt(a, n), Kids(a, n);
    if fuel > 0 && !p.Stop? && !(p.Once? && p.key in st.made) {
      SameEvalAll(a, b, sched, kids, SubParams(p, params), ArgumentOrder(sched, n, st.heap, |kids|), st, fuel - 1);
    }
  }

  lemma {:induction false} SameEvalAll(a: Config, b: Config, sched: Schedule, ns: seq<Node>, params: seq<Value>,
                                       todo: seq<nat>, st: State, fuel: nat)
    requires SameBindings(a, b) && SameShape(ns, params)
    requires forall i :: 0 <= i < |todo| ==> todo[i] < |ns|
    ensures EvalAll(a, sched, ns, params, todo, st, fuel) == EvalAll(b, sched, ns, params, todo, st, fuel)
    decreases fuel, 1 + |todo|
  {
    hide PlanOf, Kids, SameBindings;
    if todo != [] {
      SameEval(a, b, sched, ns[todo[0]], params, st, fuel);
      var r := Eval(a, sched, ns[todo[0]], params, st, fuel);
      if r.Ok? {
        SameEvalAll(a, b, sched, ns, params, todo[1..], r.st, fuel);
      }
    }
  }

  lemma {:induction false} SameRun(a: Config, b: Config, steps: seq<Step>)
    requires SameBindings(a, b)
    ensures RunOf(a, steps) == RunOf(b, steps)
  {
    hide Eval, SameBindings;
    if steps != [] {
      var s := steps[|steps|-1];
      var before := steps[..|steps|-1];
      SameRun(a, b, before);
      var run := RunOf(a, before);
      if run.Running? && Callable(s, run.st) {
        SameEval(a, b, s.sched, s.n, s.params, run.st, s.fuel);
      }
    }
  }

  /** Two programs that bind the same things in any two orders: both are rejected or neither,
      and every sequence of calls has the same outcome and the same singletons in the same order. */
  lemma OrderDoesNotMatter(user: Module, other: Module, classes: map<Type, ClassInfo>, steps: seq<Step>)
    requires multiset(FlattenAll(user.body)) == multiset(FlattenAll(other.body))
    ensures DistinctKeys(WrapperCalls(user)) <==> DistinctKeys(WrapperCalls(other))
    ensures ApplyAll(EMPTY, WrapperCalls(user)).Some? && ApplyAll(EMPTY, WrapperCalls(other)).Some?
    ensures DistinctKeys(WrapperCalls(user)) ==>
      RunOf(ConfigOf(user, classes), steps) == RunOf(ConfigOf(other, classes), steps)
  {
    hide ApplyAll, RunOf, DistinctKeys, FlattenAll, TableOf, SameBinding;
    var cs, ds := WrapperCalls(user), WrapperCalls(other);
    WrapperNeverFatal(user);
    WrapperNeverFatal(other);
    WrapperCallsShape(user);
    WrapperCallsShape(other);
    assert Wrapper(user).body[0] == Wrapper(other).body[0] && Wrapper(user).body[2] == Wrapper(other).body[2];
    assert multiset(cs) == multiset(ds);
    if DistinctKeys(cs) {
      DistinctIsPermutable(cs, ds);
      PermutedModules(cs, ds);
      SameRun(ConfigOf(user, classes), ConfigOf(other, classes), steps);
    }
    if DistinctKeys(ds) {
      DistinctIsPermutable(ds, cs);
    }
  }
}
