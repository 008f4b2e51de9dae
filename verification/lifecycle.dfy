/** From modules to teardown: the binder, `CreateInjector`, any number of requests, and the
    deletion of the injector. */
module Lifecycle {
  import opened CppTypes
  import opened Options
  import opened Bindings
  import opened BindTables
  import opened Modules
  import opened ResolutionGraph
  import opened Resolver
  import opened Container
  import opened Runs

  function Deletion(o: Owned, singletons: seq<Event>): seq<Event> {
    (if o.onDelete.CleanupSingletons? then singletons else []) + [EntryDeleted(o)]
  }

  /** Deleting the entries from the last one down to the `i`-th. */
  function DeletionsDownTo(owned: seq<Owned>, i: nat, singletons: seq<Event>): seq<Event>
    requires i <= |owned|
    decreases |owned| - i
  {
    if i == |owned| then []
    else DeletionsDownTo(owned, i + 1, singletons) + Deletion(owned[i], singletons)
  }

  class Binder {
    const table: BindTable
    const context: ScopeSetupContext
    var numErrors: nat

    constructor (table: BindTable, context: ScopeSetupContext)
      ensures this.table == table && this.context == context && numErrors == 0
    {
      this.table, this.context, numErrors := table, context, 0;
    }

    /** Providers are untouched by configuration, and every singleton entry has one. */
    ghost predicate Valid()
      reads this, table, context, context.initList
    {
      && table.Valid() && NoDuplicates(context.initList)
      && (forall p :: p in context.initList ==>
            p.context == context && !p.called && p.injector == null && p.instance == None && !p.freed)
      && (forall i :: 0 <= i < |table.cleanupList| ==> HasProvider(table.cleanupList[i]))
    }

    ghost predicate HasProvider(o: Owned)
      reads this, context
    {
      o.entry.Singleton? ==>
        o.entry.index < |context.initList| && context.initList[o.entry.index].ty == o.entry.ty
    }

    function State(): Setup
      reads this, table, context
    {
      Setup(table.bindMap, table.cleanupList, numErrors, |context.initList|)
    }

    /** `GetBoundInstance<ScopeSetupContext>`: whether the table has an instance to return. */
    method GetBoundInstance() returns (ready: bool)
      requires Valid()
      ensures ready <==> ScopeReady(table.bindMap)
    {
      var found := table.FindEntry(CONTEXT_KEY);
      if found == None {
        return false;
      }
      var e := found.value.entry;
      assert CONTEXT_KEY in table.bindMap && table.bindMap[CONTEXT_KEY].entry == e;
      ready := e.BindToHeld? && e.how.HeldPointer? && ReadAs(Pointer(CONTEXT), e.ty) == Reads(false);
    }

    method AddBindEntry(tid: Key, o: Owned)
      requires Valid() && o.serial == |table.cleanupList| && HasProvider(o)
      modifies this, table
      ensures Valid() && State() == AddBinding(old(State()), tid, o)
    {
      var added := table.AddEntry(tid, o);
      if !added {
        numErrors := numErrors + 1;
      }
    }

    /** The scope's `ConfigureScope`: fatal without a bound context, else one more provider. */
    method ConfigureScope(c: Command) returns (ok: bool)
      requires Valid() && c.BindToScope?
      modifies this, table, context`initList
      ensures ok ==> Valid()
      ensures forall p :: p in context.initList && p !in old(context.initList) ==> fresh(p)
      ensures Apply(old(State()), c) == if ok then Some(State()) else None
    {
      var ready := GetBoundInstance();
      if !ready {
        return false;
      }
      var index := |context.initList|;
      var p := new LazySingletonProvider(context, Pointer(c.lhs.arg));
      AddBindEntry(BoundKey(c), Owned(|table.cleanupList|, EntryOf(c, index), ActionOf(c, index)));
      return true;
    }

    /** Any one call on the binder; `Install` runs another module against this binder. */
    method Execute(c: Command) returns (ok: bool)
      requires Valid()
      modifies this, table, context`initList
      ensures ok ==> Valid()
      ensures forall p :: p in context.initList && p !in old(context.initList) ==> fresh(p)
      ensures ApplyAll(old(State()), Flatten(c)) == if ok then Some(State()) else None
      decreases c
    {
      if c.Install? {
        ok := Install(c.m.body);
        return;
      }
      assert [c][..0] == [];
      if c.BindToScope? {
        ok := ConfigureScope(c);
        return;
      }
      if c.AddCleanupAction? {
        table.AddToCleanupList(Owned(|table.cleanupList|, InvalidEntry, c.cleanup));
      } else {
        var index := |context.initList|;
        AddBindEntry(BoundKey(c), Owned(|table.cleanupList|, EntryOf(c, index), ActionOf(c, index)));
      }
      return true;
    }

    method Install(body: seq<Command>) returns (ok: bool)
      requires Valid()
      modifies this, table, context`initList
      ensures ok ==> Valid()
      ensures forall p :: p in context.initList && p !in old(context.initList) ==> fresh(p)
      ensures ApplyAll(old(State()), FlattenAll(body)) == if ok then Some(State()) else None
      decreases body
    {
      if body == [] {
        return true;
      }
      ApplyAllAppend(State(), Flatten(body[0]), FlattenAll(body[1..]));
      ok := Execute(body[0]);
      if ok {
        ok := Install(body[1..]);
      }
    }
  }

  /** The configuration that a user's module leads to. */
  function ConfigOf(user: Module, classes: map<Type, ClassInfo>): Config
    requires ApplyAll(EMPTY, WrapperCalls(user)).Some?
  {
    Config(TableOf(ApplyAll(EMPTY, WrapperCalls(user)).value), classes)
  }

  /** `CreateInjector`: the wrapper's `Configure`, the error check, and the context's `Init`.
      It succeeds exactly when no key, the context's included, is bound twice. */
  method CreateInjector(user: Module, classes: map<Type, ClassInfo>, sched: Schedule)
    returns (injector: Injector?)
    requires UserModule(user)
    ensures ApplyAll(EMPTY, WrapperCalls(user)).Some?
    ensures injector != null <==> DistinctKeys(WrapperCalls(user))
    ensures injector != null ==>
      && injector.Valid() && injector.st == START
      && injector.cfg == ConfigOf(user, classes) && injector.sched == sched
      && fresh(injector) && fresh(injector.context)
      && (forall p :: p in injector.context.initList ==> fresh(p)) && fresh(injector.context.cleanupList)
      && injector.table.cleanupList == ApplyAll(EMPTY, WrapperCalls(user)).value.owned
      && WrapperLayout(injector.table.cleanupList, |injector.context.initList|)
  {
    hide ApplyAll, Den, Needs, Inv, KeysMatch, WrapperLayout;
    ghost var calls := WrapperCalls(user);
    WrapperOwns(user);
    ErrorsExactly(calls);
    var binder := Configure(Wrapper(user));
    if binder.numErrors != 0 {
      return null;
    }
    ProvidersMatchKeys(calls, classes);
    injector := Launch(binder, classes, sched, ScopeKeys(calls));
  }

  /** The part of `Injector::Create` that runs the module against a fresh table. */
  method Configure(m: Module) returns (binder: Binder)
    requires ApplyAll(EMPTY, FlattenAll(m.body)).Some?
    ensures binder.Valid() && Some(binder.State()) == ApplyAll(EMPTY, FlattenAll(m.body))
    ensures fresh(binder) && fresh(binder.table) && fresh(binder.context)
    ensures forall p :: p in binder.context.initList ==> fresh(p)
    ensures binder.context.injector == null && binder.context.cleanupListSize == 0
    ensures !binder.context.locked && !binder.context.freed && binder.context.cleanupList == null
  {
    hide ApplyAll;
    var context := new ScopeSetupContext();
    var table := new BindTable();
    binder := new Binder(table, context);
    assert binder.State() == EMPTY;
    var ok := binder.Install(m.body);
  }

  /** A new injector over the finished table, and `context->Init(injector)`. */
  method Launch(binder: Binder, classes: map<Type, ClassInfo>, sched: Schedule, ghost keys: seq<Key>)
    returns (injector: Injector)
    requires binder.Valid() && KeysMatch(Config(TableOf(binder.State()), classes), keys)
    requires |keys| == |binder.context.initList|
    requires binder.context.injector == null && binder.context.cleanupListSize == 0
    requires !binder.context.locked && !binder.context.freed && binder.context.cleanupList == null
    modifies binder.context`injector, binder.context`cleanupList, (set p | p in binder.context.initList)`injector
    ensures fresh(injector) && fresh(binder.context.cleanupList)
    ensures injector.Valid() && injector.st == START
    ensures injector.context == binder.context && injector.table == binder.table
    ensures injector.cfg == Config(TableOf(binder.State()), classes) && injector.sched == sched
  {
    hide BindTable.Valid, Inv, EntriesOf;
    var context := binder.context;
    binder.table.MappedIsOwned();
    injector := new Injector(binder.table, classes, sched, context, keys);
    context.Init(injector);
    StartInv(injector.cfg);
  }

  // ---- Whole programs ----

  /** The two calls a user can make: `Injector::Get`, and `Get` on a factory. */
  datatype Call = Get(req: Request) | FactoryGet(sig: Signature, tag: Label, args: seq<Value>)

  function StepOf(c: Call, sched: Schedule, stack: nat): Step {
    match c
    case Get(req) => Step(Node([], req), [], sched, stack)
    case FactoryGet(sig, tag, args) => Step(FactoryCall(sig, tag), args, sched, stack)
  }

  datatype Report = Rejected | Crashed(how: Halt) | Finished(results: seq<Value>, log: seq<Event>)

  function StepsOf(calls: seq<Call>, sched: Schedule, stack: nat): (steps: seq<Step>)
    ensures |steps| == |calls|
  {
    seq(|calls|, i requires 0 <= i < |calls| => StepOf(calls[i], sched, stack))
  }

  /** The objects of a state's singletons, youngest first. */
  function Backwards(st: State): seq<Event>
    requires forall k :: k in st.order ==> k in st.made
  {
    seq(|st.order|, i requires 0 <= i < |st.order| => SingletonDeleted(st.made[st.order[|st.order| - 1 - i]]))
  }

  function TeardownLog(owned: seq<Owned>, st: State): seq<Event>
    requires forall k :: k in st.order ==> k in st.made
  {
    DeletionsDownTo(owned, 0, Backwards(st))
  }

  /** What a whole program does, told by the pure model: configuration, calls, teardown. */
  ghost predicate Reports(r: Report, user: Module, cfg: Config, owned: seq<Owned>, steps: seq<Step>) {
    if !DistinctKeys(WrapperCalls(user)) then r == Rejected
    else match RunOf(cfg, steps)
      case Halted(how) => r == Crashed(how)
      case Running(st, results) =>
        && (forall k :: k in st.order ==> k in st.made)
        && r == Finished(results, TeardownLog(owned, st))
  }

  lemma DeletionStep(owned: seq<Owned>, i: nat, singletons: seq<Event>)
    requires i < |owned|
    ensures DeletionsDownTo(owned, i, singletons) ==
      (if i + 1 == |owned| then [] else DeletionsDownTo(owned, i + 1, singletons)) + Deletion(owned[i], singletons)
  {
  }

  /** What the deletion of an injector relies on: the layout of the ownership list, and that
      every provider with an object is in the cleanup list. */
  ghost predicate ReadyToDestroy(table: BindTable, context: ScopeSetupContext)
    reads table, context, context.initList, context.cleanupList
  {
    && context.Orderly() && NoDuplicates(context.initList)
    && WrapperLayout(table.cleanupList, |context.initList|)
    && (forall p :: p in context.initList ==>
          && !p.freed
          && (p.instance.Some? ==> exists i :: 0 <= i < context.cleanupListSize && context.cleanupList[i] == p))
  }

  /** The destructor of a bind table as `CreateInjector` fills it, with what the container's own
      entries do when they are deleted. No check fires and nothing freed is touched. */
  method DestroyTable(table: BindTable, context: ScopeSetupContext) returns (log: seq<Event>, ghost singletons: seq<Event>)
    requires ReadyToDestroy(table, context)
    modifies context`locked, context`freed, context.initList`instance, context.initList`freed
    ensures log == DeletionsDownTo(table.cleanupList, 0, singletons)
    ensures |singletons| == context.cleanupListSize
    ensures forall i :: 0 <= i < context.cleanupListSize ==>
      singletons[context.cleanupListSize - 1 - i] == SingletonDeleted(old(context.cleanupList[i].instance).value)
    ensures context.freed && forall p :: p in context.initList ==> p.freed
  {
    hide DeletionsDownTo, WrapperLayout, NoDuplicates;
    var owned := table.cleanupList;
    LayoutEnds(owned, |context.initList|);
    var n := |owned| - 1;
    var vs := context.Cleanup();
    singletons := seq(|vs|, i requires 0 <= i < |vs| => SingletonDeleted(vs[i]));
    log := seq(|vs|, i requires 0 <= i < |vs| => SingletonDeleted(vs[i])) + [EntryDeleted(owned[n])];
    forall p | p in context.initList ensures p.instance == None {
      if old(p.instance).Some? {
        var i :| 0 <= i < context.cleanupListSize && context.cleanupList[i] == p;
      }
    }
    DeletionStep(owned, n, singletons);
    log := DeleteBelow(owned, context, log, singletons);
  }

  lemma LayoutEnds(owned: seq<Owned>, providers: nat)
    requires WrapperLayout(owned, providers)
    ensures |owned| >= 2 && owned[|owned|-1].onDelete == CleanupSingletons
  {
  }

  /** All entries but the last, from the back: user actions run, providers and the context are freed. */
  method DeleteBelow(owned: seq<Owned>, context: ScopeSetupContext, before: seq<Event>, ghost singletons: seq<Event>)
    returns (log: seq<Event>)
    requires WrapperLayout(owned, |context.initList|) && NoDuplicates(context.initList)
    requires before == DeletionsDownTo(owned, |owned| - 1, singletons)
    requires !context.freed && forall p :: p in context.initList ==> !p.freed && p.instance == None
    modifies context`freed, context.initList`freed
    ensures log == DeletionsDownTo(owned, 0, singletons)
    ensures context.freed && forall p :: p in context.initList ==> p.freed
  {
    hide DeletionsDownTo;
    log := before;
    var n := |owned| - 1;
    var i := n;
    while i > 0
      modifies context`freed, context.initList`freed
      invariant 0 <= i <= n
      invariant log == DeletionsDownTo(owned, i, singletons)
      invariant forall x :: 0 <= x < i && owned[x].onDelete.FreeProvider? ==>
        !context.initList[owned[x].onDelete.index].freed
      invariant forall x :: i <= x < n && owned[x].onDelete.FreeProvider? ==>
        context.initList[owned[x].onDelete.index].freed
      invariant context.freed <==> i == 0
    {
      i := i - 1;
      var o := owned[i];
      DeletionStep(owned, i, singletons);
      match o.onDelete {
        case FreeProvider(j) => context.initList[j].Free();
        case FreeContext => context.Free();
        case _ =>
      }
      log := log + [EntryDeleted(o)];
    }
    forall p | p in context.initList ensures p.freed {
      var j: nat :| j < |context.initList| && context.initList[j] == p;
      assert Frees(owned, j);
    }
  }

  lemma ReadyAfterRun(injector: Injector)
    requires injector.Valid() && WrapperLayout(injector.table.cleanupList, |injector.context.initList|)
    ensures ReadyToDestroy(injector.table, injector.context)
  {
    hide Den, Needs, CacheAgrees, Topological, WrapperLayout;
    var context := injector.context;
    var keys := injector.keys;
    var order := injector.st.order;
    forall i | 0 <= i < context.cleanupListSize
      ensures context.cleanupList[i] in context.initList
      ensures !context.cleanupList[i].freed && context.cleanupList[i].instance.Some?
    {
      assert order[i] in injector.st.made;
      assert keys[injector.cfg.table[order[i]].index] == order[i];
    }
    forall i, j | 0 <= i < j < context.cleanupListSize ensures context.cleanupList[i] != context.cleanupList[j] {
      var a, b := injector.cfg.table[order[i]].index, injector.cfg.table[order[j]].index;
      assert keys[a] == order[i] && keys[b] == order[j];
    }
    forall p | p in context.initList
      ensures !p.freed
      ensures p.instance.Some? ==> exists i :: 0 <= i < context.cleanupListSize && context.cleanupList[i] == p
    {
      var j :| 0 <= j < |keys| && context.initList[j] == p;
      if p.instance.Some? {
        assert keys[j] in order;
        var i :| 0 <= i < |order| && order[i] == keys[j];
        assert context.cleanupList[i] == p;
      }
    }
  }

  /** How a call that was made without an answer ended the process. */
  function HaltOf(a: Answer): Halt
    requires !a.Got?
  {
    match a
    case Died(why) => ByFatal(why)
    case Overflow => ByOverflow
  }

  /** One call; the caller has to pass values it has, one for each parameter. */
  method MakeCall(injector: Injector, stack: nat, c: Call) returns (a: Option<Answer>)
    requires injector.Valid()
    modifies injector, injector.context, injector.context.initList, injector.context.cleanupList
    ensures injector.SameLists(old(injector.context.initList), old(injector.context.cleanupList))
    ensures var s := StepOf(c, injector.sched, stack); var st := old(injector.st);
      if !Callable(s, st) then a == None
      else
        var r := Eval(injector.cfg, s.sched, s.n, s.params, st, s.fuel);
        a.Some? && Answers(a.value, r) && (a.value.Got? ==> injector.Valid() && injector.st == r.st)
  {
    hide Den, Needs, Inv, Eval;
    match c {
      case Get(req) =>
        var r := injector.Get(req, stack);
        a := Some(r);
      case FactoryGet(sig, tag, args) =>
        if |args| != |sig.params| || !Below(args, |injector.heap|) {
          return None;
        }
        var r := injector.FactoryGet(sig, tag, args, stack);
        a := Some(r);
    }
  }

  /** Calls on the injector, one after the other, while the process lives. */
  method MakeCalls(injector: Injector, stack: nat, calls: seq<Call>) returns (results: seq<Value>, end: Option<Halt>)
    requires injector.Valid() && injector.st == START
    modifies injector, injector.context, injector.context.initList, injector.context.cleanupList
    ensures injector.SameLists(old(injector.context.initList), old(injector.context.cleanupList))
    ensures match RunOf(injector.cfg, StepsOf(calls, injector.sched, stack))
      case Halted(how) => end == Some(how)
      case Running(st, vs) => end == None && results == vs && injector.Valid() && injector.st == st
  {
    hide Den, Needs, Inv, Eval;
    ghost var steps := StepsOf(calls, injector.sched, stack);
    results, end := [], None;
    assert steps[..0] == [];
    for i := 0 to |calls|
      invariant end == None
      invariant injector.Valid() && RunOf(injector.cfg, steps[..i]) == Running(injector.st, results)
      invariant injector.SameLists(old(injector.context.initList), old(injector.context.cleanupList))
    {
      assert steps[..i+1][..i] == steps[..i];
      var a := MakeCall(injector, stack, calls[i]);
      if a == None || !a.value.Got? {
        end := Some(if a == None then ByCaller else HaltOf(a.value));
        HaltedStays(injector.cfg, steps, i + 1);
        return;
      }
      results := results + [a.value.v];
    }
    assert steps[..|calls|] == steps;
  }

  /** `delete injector`, which owns the bind table. */
  method DeleteInjector(injector: Injector) returns (log: seq<Event>)
    requires injector.Valid() && WrapperLayout(injector.table.cleanupList, |injector.context.initList|)
    modifies injector.context`locked, injector.context`freed
    modifies injector.context.initList`instance, injector.context.initList`freed
    ensures forall k :: k in injector.st.order ==> k in injector.st.made
    ensures log == TeardownLog(injector.table.cleanupList, injector.st)
    ensures injector.context.freed && forall p :: p in injector.context.initList ==> p.freed
  {
    hide Inv, WrapperLayout, Injector.Linked, Injector.MirrorsExcept, BindTable.Valid;
    ReadyAfterRun(injector);
    MadeInOrder(injector.cfg, injector.st);
    CleanupObjects(injector);
    ghost var singletons;
    log, singletons := DestroyTable(injector.table, injector.context);
    assert singletons == Backwards(injector.st);
  }

  /** A whole program on the objects themselves. */
  method RunProgram(user: Module, classes: map<Type, ClassInfo>, sched: Schedule, stack: nat, calls: seq<Call>)
    returns (r: Report)
    requires UserModule(user)
    ensures ApplyAll(EMPTY, WrapperCalls(user)).Some?
    ensures Reports(r, user, ConfigOf(user, classes), ApplyAll(EMPTY, WrapperCalls(user)).value.owned,
                    StepsOf(calls, sched, stack))
  {
    hide ApplyAll, RunOf, Inv, WrapperLayout, DistinctKeys, Injector.MirrorsExcept, BindTable.Valid;
    var injector := CreateInjector(user, classes, sched);
    if injector == null {
      return Rejected;
    }
    var results, end := MakeCalls(injector, stack, calls);
    if end.Some? {
      return Crashed(end.value);
    }
    var log := DeleteInjector(injector);
    r := Finished(results, log);
  }

  lemma MadeInOrder(cfg: Config, st: State)
    requires Inv(cfg, st)
    ensures forall k :: k in st.order ==> k in st.made
  {
  }

  lemma CleanupObjects(injector: Injector)
    requires injector.Valid()
    ensures var st, context := injector.st, injector.context;
      && context.cleanupListSize == |st.order|
      && forall i :: 0 <= i < |st.order| ==>
           st.order[i] in st.made && context.cleanupList[i] != null
           && context.cleanupList[i].instance == Some(st.made[st.order[i]])
  {
    hide Den, Needs, CacheAgrees, Topological;
    forall i | 0 <= i < |injector.st.order|
      ensures injector.st.order[i] in injector.st.made && injector.context.cleanupList[i] != null
      ensures injector.context.cleanupList[i].instance == Some(injector.st.made[injector.st.order[i]])
    {
      var k := injector.st.order[i];
      assert k in injector.st.made && injector.keys[injector.cfg.table[k].index] == k;
    }
  }

  // ---- Teardown safety ----

  function OnlyEntries(log: seq<Event>): seq<Event> {
    if log == [] then []
    else OnlyEntries(log[..|log|-1]) + if log[|log|-1].EntryDeleted? then [log[|log|-1]] else []
  }

  lemma {:induction false} OnlyEntriesAppend(log: seq<Event>, more: seq<Event>)
    ensures OnlyEntries(log + more) == OnlyEntries(log) + OnlyEntries(more)
    decreases |more|
  {
    if more == [] {
      assert log + more == log;
    } else {
      OnlyEntriesAppend(log, more[..|more|-1]);
      assert (log + more)[..|log + more| - 1] == log + more[..|more|-1];
    }
  }

  lemma {:induction false} NoEntries(singletons: seq<Event>)
    requires forall i :: 0 <= i < |singletons| ==> singletons[i].SingletonDeleted?
    ensures OnlyEntries(singletons) == []
  {
    if singletons != [] {
      NoEntries(singletons[..|singletons|-1]);
    }
  }

  lemma OnlyEntriesOfDeletion(o: Owned, singletons: seq<Event>)
    requires forall j :: 0 <= j < |singletons| ==> singletons[j].SingletonDeleted?
    ensures OnlyEntries(Deletion(o, singletons)) == [EntryDeleted(o)]
  {
    NoEntries(singletons);
    assert [EntryDeleted(o)][..0] == [];
    OnlyEntriesAppend(if o.onDelete.CleanupSingletons? then singletons else [], [EntryDeleted(o)]);
  }

  /** Whatever the layout of the ownership list, and wherever singletons are deleted in between:
      every entry is deleted once, in reverse order. */
  lemma {:induction false} EntriesConserved(owned: seq<Owned>, i: nat, singletons: seq<Event>)
    requires i <= |owned| && forall j :: 0 <= j < |singletons| ==> singletons[j].SingletonDeleted?
    ensures OnlyEntries(DeletionsDownTo(owned, i, singletons)) == EntriesBackwards(owned[i..])
    decreases |owned| - i
  {
    hide OnlyEntries, Deletion;
    if i == |owned| {
      NoEntries([]);
    } else {
      EntriesConserved(owned, i + 1, singletons);
      OnlyEntriesAppend(DeletionsDownTo(owned, i + 1, singletons), Deletion(owned[i], singletons));
      OnlyEntriesOfDeletion(owned[i], singletons);
      assert EntriesBackwards(owned[i..]) == EntriesBackwards(owned[i+1..]) + [EntryDeleted(owned[i])];
    }
  }

  lemma {:induction false} DeletionsExactly(owned: seq<Owned>, i: nat, singletons: seq<Event>)
    requires i < |owned| && owned[|owned|-1].onDelete == CleanupSingletons
    requires forall j :: 0 <= j < |owned| - 1 ==> !owned[j].onDelete.CleanupSingletons?
    ensures DeletionsDownTo(owned, i, singletons) ==
      singletons + seq(|owned| - i, j requires 0 <= j < |owned| - i => EntryDeleted(owned[|owned| - 1 - j]))
    decreases |owned| - i
  {
    if i == |owned| - 1 {
      assert DeletionsDownTo(owned, i + 1, singletons) == [];
    } else {
      DeletionsExactly(owned, i + 1, singletons);
    }
  }

  /** First every singleton, youngest first, then every entry, in the reverse order of binding. */
  ghost predicate TeardownShape(log: seq<Event>, owned: seq<Owned>, st: State) {
    && (forall k :: k in st.order <==> k in st.made)
    && |log| == |st.order| + |owned|
    && (forall i :: 0 <= i < |st.order| ==>
          log[i] == SingletonDeleted(st.made[st.order[|st.order| - 1 - i]]))
    && (forall i :: |st.order| <= i < |log| ==> log[i] == EntryDeleted(owned[|log| - 1 - i]))
  }

  /** The whole teardown of a program that ran. */
  lemma TeardownExactly(user: Module, cfg: Config, steps: seq<Step>)
    requires UserModule(user) && ApplyAll(EMPTY, WrapperCalls(user)).Some?
    requires RunOf(cfg, steps).Running?
    ensures var st := RunOf(cfg, steps).st; var owned := ApplyAll(EMPTY, WrapperCalls(user)).value.owned;
      && (forall k :: k in st.order ==> k in st.made)
      && TeardownShape(TeardownLog(owned, st), owned, st)
  {
    hide ApplyAll, Inv, RunOf;
    WrapperOwns(user);
    ReachableInv(cfg, steps);
    MadeIsOrder(cfg, RunOf(cfg, steps).st);
    DeletionsExactly(ApplyAll(EMPTY, WrapperCalls(user)).value.owned, 0, Backwards(RunOf(cfg, steps).st));
  }

  lemma MadeIsOrder(cfg: Config, st: State)
    requires Inv(cfg, st)
    ensures forall k :: k in st.order <==> k in st.made
  {
  }

  /** Nothing is deleted twice and nothing is left. */
  ghost predicate DeletesOnce(log: seq<Event>, owned: seq<Owned>, st: State) {
    && NoDuplicates(log)
    && (forall k :: k in st.made ==> SingletonDeleted(st.made[k]) in log)
    && (forall o :: o in owned ==> EntryDeleted(o) in log)
  }

  /** Singletons go before all entries, dependents before what they needed, the context last. */
  ghost predicate DeletesInOrder(log: seq<Event>, cfg: Config, st: State) {
    && (forall i, j :: 0 <= i < |log| && 0 <= j < |log| && log[i].SingletonDeleted? && log[j].EntryDeleted? ==> i < j)
    && (forall k, l, i, j ::
          (&& k in st.made && l in st.made && NeededBy(cfg, k, l)
           && 0 <= i < |log| && 0 <= j < |log|
           && log[i] == SingletonDeleted(st.made[k]) && log[j] == SingletonDeleted(st.made[l]))
          ==> i < j)
    && |log| > 0 && log[|log|-1].EntryDeleted? && log[|log|-1].o.onDelete == FreeContext
  }

  /** Teardown is safe after every run: nothing is deleted twice; every singleton goes before
      every instance, provider and user action; a singleton goes before whatever its creation
      needed; and the context goes last. */
  lemma TeardownSafety(user: Module, cfg: Config, steps: seq<Step>)
    requires UserModule(user) && ApplyAll(EMPTY, WrapperCalls(user)).Some?
    requires RunOf(cfg, steps).Running? && WellBound(cfg)
    ensures var st := RunOf(cfg, steps).st; var owned := ApplyAll(EMPTY, WrapperCalls(user)).value.owned;
      && (forall k :: k in st.order ==> k in st.made)
      && DeletesOnce(TeardownLog(owned, st), owned, st)
      && DeletesInOrder(TeardownLog(owned, st), cfg, st)
  {
    hide ApplyAll, Inv, RunOf, NeededBy, TeardownLog, TeardownShape, DistinctObjects, DeletesOnce, DeletesInOrder;
    var st := RunOf(cfg, steps).st;
    var owned := ApplyAll(EMPTY, WrapperCalls(user)).value.owned;
    WrapperOwns(user);
    TeardownExactly(user, cfg, steps);
    ReachableInv(cfg, steps);
    SingletonsAreDistinct(cfg, steps);
    ShapeDeletesOnce(TeardownLog(owned, st), owned, cfg, st);
    ShapeDeletesInOrder(TeardownLog(owned, st), owned, cfg, st);
  }

  lemma ShapeDeletesOnce(log: seq<Event>, owned: seq<Owned>, cfg: Config, st: State)
    requires TeardownShape(log, owned, st) && Inv(cfg, st) && DistinctObjects(st)
    requires forall i :: 0 <= i < |owned| ==> owned[i].serial == i
    ensures DeletesOnce(log, owned, st)
  {
    hide Inv;
    OrderIsDistinct(cfg, st);
    var n := |st.order|;
    forall i, j | 0 <= i < j < |log| ensures log[i] != log[j] {
      if j < n {
        assert st.order[n - 1 - j] != st.order[n - 1 - i];
      } else if i >= n {
        assert owned[|log| - 1 - i].serial != owned[|log| - 1 - j].serial;
      }
    }
    forall k | k in st.made ensures SingletonDeleted(st.made[k]) in log {
      var i :| 0 <= i < n && st.order[i] == k;
      assert log[n - 1 - i] == SingletonDeleted(st.made[k]);
    }
    forall o | o in owned ensures EntryDeleted(o) in log {
      var i :| 0 <= i < |owned| && owned[i] == o;
      assert log[|log| - 1 - i] == EntryDeleted(o);
    }
  }

  lemma ShapeDeletesInOrder(log: seq<Event>, owned: seq<Owned>, cfg: Config, st: State)
    requires TeardownShape(log, owned, st) && Inv(cfg, st) && DistinctObjects(st)
    requires owned != [] && owned[0].onDelete == FreeContext
    ensures DeletesInOrder(log, cfg, st)
  {
    hide Inv, NeededBy, TeardownShape, DistinctObjects;
    ShapeBounds(log, owned, st);
    forall k, l, i: nat, j: nat | k in st.made && l in st.made && NeededBy(cfg, k, l)
        && i < |log| && j < |log|
        && log[i] == SingletonDeleted(st.made[k]) && log[j] == SingletonDeleted(st.made[l])
      ensures i < j
    {
      DeletedFrom(log, owned, st, k, i);
      DeletedFrom(log, owned, st, l, j);
      DependentFirst(cfg, st, k, l, |st.order| - 1 - i, |st.order| - 1 - j);
    }
  }

  lemma ShapeBounds(log: seq<Event>, owned: seq<Owned>, st: State)
    requires TeardownShape(log, owned, st)
    requires owned != [] && owned[0].onDelete == FreeContext
    ensures forall i, j :: 0 <= i < |log| && 0 <= j < |log| && log[i].SingletonDeleted? && log[j].EntryDeleted? ==> i < j
    ensures |log| > 0 && log[|log|-1].EntryDeleted? && log[|log|-1].o.onDelete == FreeContext
  {
    assert forall i :: 0 <= i < |log| ==> (log[i].SingletonDeleted? <==> i < |st.order|);
  }

  lemma DeletedFrom(log: seq<Event>, owned: seq<Owned>, st: State, k: Key, i: nat)
    requires TeardownShape(log, owned, st) && DistinctObjects(st) && k in st.made
    requires i < |log| && log[i] == SingletonDeleted(st.made[k])
    ensures i < |st.order| && st.order[|st.order| - 1 - i] == k
  {
  }

  lemma OrderIsDistinct(cfg: Config, st: State)
    requires Inv(cfg, st)
    ensures NoDuplicates(st.order)
  {
  }

  lemma DependentFirst(cfg: Config, st: State, k: Key, l: Key, x: nat, y: nat)
    requires Inv(cfg, st) && NeededBy(cfg, k, l) && x < |st.order| && y < |st.order|
    requires st.order[x] == k && st.order[y] == l
    ensures y < x
  {
    hide Needs;
    assert l in st.order[..x];
    var z :| 0 <= z < x && st.order[z] == l;
  }
}
