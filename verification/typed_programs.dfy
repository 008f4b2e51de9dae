/** Type soundness end to end: modules that compile configure a well-typed table, and every
    call of every run over it returns what it was asked for. */
module TypedPrograms {
  import opened CppTypes
  import opened Bindings
  import opened Modules
  import opened ResolutionGraph
  import opened Resolver
  import opened ResolverTheorems
  import opened Typing
  import opened Runs

  predicate WellFormedArg(cfg: Config, a: Annotated) {
    WellFormed(a.arg) && TypedRequest(cfg, RequestOf(a))
  }

  predicate WellFormedArgs(cfg: Config, args: seq<Annotated>) {
    forall i :: 0 <= i < |args| ==> WellFormedArg(cfg, args[i])
  }

  /** What the compiler accepts of one call on the binder. */
  predicate Compiles(cfg: Config, h: Hierarchy, c: Command) {
    Binds(c) ==>
      && c.lhs.inject == NormalInject && c.lhs.tag != UnScoped
      && !IsInternal(cfg, BoundKey(c).spec)
      && match c
         case Bind(lhs, rhs) =>
           && WellFormed(Pointer(lhs.arg)) && WellFormed(Pointer(rhs.arg))
           && Converts(h, Pointer(rhs.arg), Pointer(lhs.arg))
         case BindValueType(lhs, rhs) =>
           && WellFormed(lhs.arg) && WellFormedArg(cfg, rhs)
           && (ActualType(lhs.arg).Pointer? || lhs.arg.Reference? ==>
                 Converts(h, ActualType(rhs.arg), ActualType(lhs.arg)))
         case BindToInstance(lhs, _, _) => WellFormed(Pointer(lhs.arg))
         case BindToValue(lhs, _) => WellFormed(lhs.arg)
         case BindRefToPointed(lhs, _, _) => WellFormed(Reference(lhs.arg))
         case BindPointerToProvider(lhs, _, args, _) => WellFormed(Pointer(lhs.arg)) && WellFormedArgs(cfg, args)
         case BindValueToProvider(lhs, _, args, _) => WellFormed(lhs.arg) && WellFormedArgs(cfg, args)
         case BindToScope(lhs) => WellFormed(Pointer(lhs.arg))
  }

  /** Every binding call creates an entry whose specifier is its key's, at a type that
      survives erasure. */
  lemma BoundEntryTyped(cfg: Config, h: Hierarchy, c: Command, index: nat)
    requires Binds(c) && Compiles(cfg, h, c)
    ensures TypedEntry(cfg, h, BoundKey(c), EntryOf(c, index))
    ensures var ty := EntryOf(c, index).ty;
      Rebuild(CategoryOf(ty), IsConst(ty), BoundKey(c).spec) == ty
  {
    assert EntryOf(c, index).ty == EntryOf(c, 0).ty;
    ErasureRoundTrip(EntryOf(c, 0).ty);
  }

  /** Modules that compile configure a well-typed table. */
  lemma ConfiguredIsTyped(cs: seq<Command>, classes: map<Type, ClassInfo>, h: Hierarchy)
    requires Flat(cs) && ApplyAll(EMPTY, cs).Some?
    requires forall i :: 0 <= i < |cs| ==> Compiles(Config(map[], classes), h, cs[i])
    requires forall s :: s in classes ==> TypedClass(Config(map[], classes), s, classes[s])
    ensures WellTyped(Config(TableOf(ApplyAll(EMPTY, cs).value), classes), h)
  {
    hide ApplyAll, EntryOf, BoundKey, Compiles, TypedEntry, TypedClass;
    var cfg := Config(TableOf(ApplyAll(EMPTY, cs).value), classes);
    TableExactly(cs);
    forall k | k in cfg.table ensures TypedEntry(cfg, h, k, cfg.table[k]) {
      var i := FirstBinder(cs, k);
      assert ApplyAll(EMPTY, cs).value.owned[i] == OwnedBy(cs, i);
      SameClasses(Config(map[], classes), cfg, h, cs[i]);
      BoundEntryTyped(cfg, h, cs[i], ScopesBefore(cs, i));
    }
    forall s | s in classes ensures TypedClass(cfg, s, classes[s]) {
      SameTypedClass(Config(map[], classes), cfg, s, classes[s]);
    }
  }

  /** The compiler's checks look at the classes, never at the table. */
  lemma SameClasses(a: Config, b: Config, h: Hierarchy, c: Command)
    requires a.classes == b.classes && Compiles(a, h, c)
    ensures Compiles(b, h, c)
  {
  }

  lemma SameTypedClass(a: Config, b: Config, s: Type, info: ClassInfo)
    requires a.classes == b.classes && TypedClass(a, s, info)
    ensures TypedClass(b, s, info)
  {
  }

  /** Callers ask for types that exist and pass values of their parameters' types. */
  ghost predicate TypedStep(cfg: Config, h: Hierarchy, s: Step, st: State) {
    TypedNode(cfg, s.n) && TypedParams(h, st.heap, s.n, s.params)
  }

  ghost predicate TypedSteps(cfg: Config, h: Hierarchy, steps: seq<Step>) {
    forall i :: 0 <= i < |steps| && RunOf(cfg, steps[..i]).Running? ==>
      TypedStep(cfg, h, steps[i], RunOf(cfg, steps[..i]).st)
  }

  /** Every result of every run has the type it was asked for. */
  lemma {:induction false} RunIsTyped(cfg: Config, h: Hierarchy, steps: seq<Step>)
    requires IsHierarchy(h) && WellTyped(cfg, h) && TypedSteps(cfg, h, steps)
    requires RunOf(cfg, steps).Running?
    ensures var run := RunOf(cfg, steps);
      && TypedState(cfg, h, run.st) && |run.results| == |steps|
      && forall i :: 0 <= i < |steps| ==> Fits(h, run.st.heap, run.results[i], steps[i].n.req.ty)
  {
    hide Eval, Fits, TypedState, WellTyped, TypedStep, IsHierarchy;
    if steps == [] {
      StartIsTyped(cfg, h);
    } else {
      var n := |steps| - 1;
      var before := steps[..n];
      var s := steps[n];
      PrefixTyped(cfg, h, steps);
      RunIsTyped(cfg, h, before);
      var st := RunOf(cfg, before).st;
      assert TypedStep(cfg, h, s, st);
      StepTyped(cfg, h, s, st);
      var run := RunOf(cfg, steps);
      forall i | 0 <= i < |steps| ensures Fits(h, run.st.heap, run.results[i], steps[i].n.req.ty) {
        if i < n {
          FitsStable(h, st.heap, run.st.heap, run.results[i], steps[i].n.req.ty);
        }
      }
    }
  }

  lemma StartIsTyped(cfg: Config, h: Hierarchy)
    ensures TypedState(cfg, h, START)
  {
  }

  lemma PrefixTyped(cfg: Config, h: Hierarchy, steps: seq<Step>)
    requires steps != [] && TypedSteps(cfg, h, steps)
    ensures TypedSteps(cfg, h, steps[..|steps|-1])
  {
    hide TypedStep, RunOf;
    var before := steps[..|steps|-1];
    forall i | 0 <= i < |before| && RunOf(cfg, before[..i]).Running?
      ensures TypedStep(cfg, h, before[i], RunOf(cfg, before[..i]).st)
    {
      assert before[..i] == steps[..i] && before[i] == steps[i];
    }
  }

  lemma StepTyped(cfg: Config, h: Hierarchy, s: Step, st: State)
    requires IsHierarchy(h) && WellTyped(cfg, h) && TypedState(cfg, h, st) && TypedStep(cfg, h, s, st)
    requires Eval(cfg, s.sched, s.n, s.params, st, s.fuel).Ok?
    ensures var r := Eval(cfg, s.sched, s.n, s.params, st, s.fuel);
      st.heap <= r.st.heap && TypedState(cfg, h, r.st) && Fits(h, r.st.heap, r.v, s.n.req.ty)
  {
    hide Eval, Fits, TypedState, WellTyped, IsHierarchy, TypedNode;
    TypeSound(cfg, h, s.sched, s.n, s.params, st, s.fuel);
  }

  /** Every call that is made passes values that exist. */
  ghost predicate AllCallable(cfg: Config, steps: seq<Step>) {
    forall i :: 0 <= i < |steps| && RunOf(cfg, steps[..i]).Running? ==> Callable(steps[i], RunOf(cfg, steps[..i]).st)
  }

  ghost predicate AcyclicSteps(cfg: Config, steps: seq<Step>) {
    forall i :: 0 <= i < |steps| ==> Acyclic(cfg, steps[i].n) && steps[i].fuel >= Limit(cfg)
  }

  /** A run of typed calls ends with a fatal log only for a missing binding, a missing assisted
      argument or a conversion that is not allowed, in reach of one of its calls. Without a
      cycle, with a stack as deep as there are bindings and callers that pass what they have,
      it ends early exactly when there is such a cause. */
  lemma RunFailsExactly(cfg: Config, h: Hierarchy, steps: seq<Step>)
    requires WellTyped(cfg, h) && TypedSteps(cfg, h, steps)
    ensures var run := RunOf(cfg, steps);
      run.Halted? && run.how.ByFatal? ==>
        && run.how.why != WrongTypeId && run.how.why != WrongDowncast
        && exists i :: 0 <= i < |steps| && CauseInReach(cfg, steps[i].n, run.how.why)
    ensures AcyclicSteps(cfg, steps) && AllCallable(cfg, steps) ==>
      (RunOf(cfg, steps).Halted? <==> exists i, why :: 0 <= i < |steps| && CauseInReach(cfg, steps[i].n, why))
  {
    hide Eval, RunOf, WellTyped, TypedNode, TypedParams, Cause, Acyclic, CauseInReach;
    var run := RunOf(cfg, steps);
    if run.Halted? && run.how.ByFatal? {
      var i := HaltingStep(cfg, steps);
      var s := steps[i];
      var st := RunOf(cfg, steps[..i]).st;
      assert TypedStep(cfg, h, s, st);
      ReachableInv(cfg, steps[..i]);
      ResolutionFailsExactly(cfg, h, s.sched, s.n, s.params, st, s.fuel);
    }
    if AcyclicSteps(cfg, steps) && AllCallable(cfg, steps) {
      if run.Halted? { FailureHasCause(cfg, h, steps); }
      if i, why :| 0 <= i < |steps| && CauseInReach(cfg, steps[i].n, why) { CauseFails(cfg, h, steps, i, why); }
    }
  }

  lemma FailureHasCause(cfg: Config, h: Hierarchy, steps: seq<Step>)
    requires WellTyped(cfg, h) && TypedSteps(cfg, h, steps) && RunOf(cfg, steps).Halted?
    requires AcyclicSteps(cfg, steps) && AllCallable(cfg, steps)
    ensures exists i, why :: 0 <= i < |steps| && CauseInReach(cfg, steps[i].n, why)
  {
    hide PlanOf, RunOf, WellTyped, TypedNode, TypedParams, Acyclic, CauseInReach;
    HaltsExactly(cfg, steps);
    var i: nat :| FailsAt(cfg, steps, i);
    assert TypedStep(cfg, h, steps[i], RunOf(cfg, steps[..i]).st);
    var m :| Reaches(cfg, steps[i].n, m) && PlanAt(cfg, m).Stop?;
    assert StopsWith(cfg, steps[i].n, PlanAt(cfg, m).why);
    CauseExactly(cfg, h, steps[i].n, PlanAt(cfg, m).why);
  }

  lemma CauseFails(cfg: Config, h: Hierarchy, steps: seq<Step>, i: nat, why: Reason)
    requires WellTyped(cfg, h) && TypedSteps(cfg, h, steps)
    requires i < |steps| && CauseInReach(cfg, steps[i].n, why)
    ensures RunOf(cfg, steps).Halted?
  {
    hide PlanOf, RunOf, WellTyped, TypedNode, TypedParams, Acyclic, CauseInReach;
    if RunOf(cfg, steps).Running? {
      RunPrefix(cfg, steps, i);
      assert TypedStep(cfg, h, steps[i], RunOf(cfg, steps[..i]).st);
      CauseExactly(cfg, h, steps[i].n, why);
      assert FailsAt(cfg, steps, i);
      HaltsExactly(cfg, steps);
    }
  }
}
