/** Modules as trees of binder calls, what each call binds, and the table that results. */
module Modules {
  import opened CppTypes
  import opened Bindings
  import opened Options

  /** `At<...>` or a plain argument type. */
  datatype Annotated = At(inject: InjectType, tag: Label, arg: Type)

  /** What deleting a table entry does besides freeing it. */
  datatype Action =
    | NoAction
    | UserAction(id: nat)
    | FreeContext
    | FreeProvider(index: nat)
    | CleanupSingletons

  /** The calls a module's `Configure` makes on the binder. */
  datatype Command =
    | Bind(lhs: Annotated, rhs: Annotated)
    | BindValueType(lhs: Annotated, rhs: Annotated)
    | BindToInstance(lhs: Annotated, id: nat, cleanup: Action)
    | BindToValue(lhs: Annotated, id: nat)
    | BindRefToPointed(lhs: Annotated, id: nat, cleanup: Action)
    | BindPointerToProvider(lhs: Annotated, id: nat, args: seq<Annotated>, cleanup: Action)
    | BindValueToProvider(lhs: Annotated, id: nat, args: seq<Annotated>, cleanup: Action)
    | BindToScope(lhs: Annotated)
    | AddCleanupAction(cleanup: Action)
    | Install(m: Module)

  datatype Module = Module(body: seq<Command>)

  /** An entry as the table owns it; `serial` stands for its address. */
  datatype Owned = Owned(serial: nat, entry: Entry, onDelete: Action)

  /** Everything configuration changes: the map, the ownership list, the error count and the
      length of the init list. */
  datatype Setup = Setup(table: map<Key, Owned>, owned: seq<Owned>, errors: nat, scopes: nat)

  const EMPTY := Setup(map[], [], 0, 0)

  function RequestOf(a: Annotated): Request {
    Request(a.inject, a.tag, ActualType(a.arg))
  }

  function RequestsOf(args: seq<Annotated>): seq<Request> {
    seq(|args|, i requires 0 <= i < |args| => RequestOf(args[i]))
  }

  predicate Binds(c: Command) {
    !c.AddCleanupAction? && !c.Install?
  }

  /** The entry a call creates; `index` is the current length of the init list. */
  function EntryOf(c: Command, index: nat): Entry
    requires Binds(c)
  {
    match c
    case Bind(lhs, rhs) => BindToType(Pointer(lhs.arg), Request(rhs.inject, rhs.tag, Pointer(rhs.arg)))
    case BindValueType(lhs, rhs) => BindToType(ActualType(lhs.arg), RequestOf(rhs))
    case BindToInstance(lhs, id, _) => BindToHeld(Pointer(lhs.arg), HeldPointer, id)
    case BindToValue(lhs, id) => BindToHeld(ActualType(lhs.arg), HeldValue, id)
    case BindRefToPointed(lhs, id, _) => BindToHeld(Reference(lhs.arg), HeldReference, id)
    case BindPointerToProvider(lhs, id, args, _) => BindToProvider(Pointer(lhs.arg), id, RequestsOf(args))
    case BindValueToProvider(lhs, id, args, _) => BindToProvider(ActualType(lhs.arg), id, RequestsOf(args))
    case BindToScope(lhs) => Singleton(Pointer(lhs.arg), index)
  }

  /** `GetBindId` of the left-hand side at the type it is bound with. */
  function BoundKey(c: Command): Key
    requires Binds(c)
  {
    Key(NormalInject, c.lhs.tag, TypeSpecifier(EntryOf(c, 0).ty))
  }

  function ActionOf(c: Command, index: nat): Action
    requires Binds(c)
  {
    match c
    case BindToInstance(_, _, cleanup) => cleanup
    case BindRefToPointed(_, _, cleanup) => cleanup
    case BindPointerToProvider(_, _, _, cleanup) => cleanup
    case BindValueToProvider(_, _, _, cleanup) => cleanup
    case BindToScope(_) => FreeProvider(index)
    case _ => NoAction
  }

  // ---- Configuration ----

  /** The class `ScopeSetupContext`. */
  const CONTEXT := Base(0)
  const CONTEXT_KEY := Key(NormalInject, NotLabelled, CONTEXT)

  /** `GetBoundInstance<ScopeSetupContext>` finds a pointer it can return. */
  predicate ScopeReady(table: map<Key, Owned>) {
    && CONTEXT_KEY in table
    && var e := table[CONTEXT_KEY].entry;
       e.BindToHeld? && e.how.HeldPointer? && ReadAs(Pointer(CONTEXT), e.ty) == Reads(false)
  }

  function AddBinding(s: Setup, k: Key, o: Owned): Setup {
    if k in s.table then s.(owned := s.owned + [o], errors := s.errors + 1)
    else s.(owned := s.owned + [o], table := s.table[k := o])
  }

  /** One call that is not an `Install`; none for a fatal log. */
  function Apply(s: Setup, c: Command): Option<Setup>
    requires !c.Install?
  {
    if c.AddCleanupAction? then
      Some(s.(owned := s.owned + [Owned(|s.owned|, InvalidEntry, c.cleanup)]))
    else if c.BindToScope? && !ScopeReady(s.table) then None
    else
      var o := Owned(|s.owned|, EntryOf(c, s.scopes), ActionOf(c, s.scopes));
      var s' := AddBinding(s, BoundKey(c), o);
      Some(if c.BindToScope? then s'.(scopes := s.scopes + 1) else s')
  }

  predicate Flat(cs: seq<Command>) {
    forall i :: 0 <= i < |cs| ==> !cs[i].Install?
  }

  /** The calls that one call comes down to: installing a module runs its body in place. */
  function Flatten(c: Command): (fs: seq<Command>)
    ensures Flat(fs)
    decreases c
  {
    if c.Install? then FlattenAll(c.m.body) else [c]
  }

  function FlattenAll(cs: seq<Command>): (fs: seq<Command>)
    ensures Flat(fs)
    decreases cs
  {
    if cs == [] then [] else Flatten(cs[0]) + FlattenAll(cs[1..])
  }

  /** What installing amounts to: calls keep their order, and the calls of an installed module
      stand where it was installed. */
  lemma {:induction false} FlattenExactly(cs: seq<Command>, ds: seq<Command>, c: Command, m: Module)
    ensures FlattenAll([]) == []
    ensures FlattenAll(cs + ds) == FlattenAll(cs) + FlattenAll(ds)
    ensures !c.Install? ==> FlattenAll([c]) == [c]
    ensures FlattenAll([Install(m)]) == FlattenAll(m.body)
    decreases |cs|
  {
    assert [c][1..] == [] && [Install(m)][1..] == [];
    if cs == [] {
      assert cs + ds == ds;
    } else {
      FlattenExactly(cs[1..], ds, c, m);
      assert (cs + ds)[1..] == cs[1..] + ds;
    }
  }

  function ApplyAll(s: Setup, cs: seq<Command>): Option<Setup>
    requires Flat(cs)
  {
    if cs == [] then Some(s)
    else
      match ApplyAll(s, cs[..|cs|-1])
      case None => None
      case Some(mid) => Apply(mid, cs[|cs|-1])
  }

  lemma {:induction false} ApplyAllAppend(s: Setup, cs: seq<Command>, ds: seq<Command>)
    requires Flat(cs) && Flat(ds)
    ensures Flat(cs + ds)
    ensures ApplyAll(s, cs + ds) ==
      match ApplyAll(s, cs) { case None => None case Some(mid) => ApplyAll(mid, ds) }
    decreases |ds|
  {
    if ds == [] {
      assert cs + ds == cs;
    } else {
      var last := |ds| - 1;
      ApplyAllAppend(s, cs, ds[..last]);
      assert (cs + ds)[..|cs + ds| - 1] == cs + ds[..last];
    }
  }

  // ---- What the table holds ----

  /** Number of scope bindings before position `i`. */
  function ScopesBefore(cs: seq<Command>, i: nat): nat
    requires i <= |cs|
  {
    if i == 0 then 0 else ScopesBefore(cs, i - 1) + if cs[i-1].BindToScope? then 1 else 0
  }

  /** Position `i` is the first to bind `k`. */
  ghost predicate FirstToBind(cs: seq<Command>, i: nat, k: Key) {
    && i < |cs| && Binds(cs[i]) && BoundKey(cs[i]) == k
    && forall j :: 0 <= j < i ==> !BindsKey(cs[j], k)
  }

  predicate BindsKey(c: Command, k: Key) {
    Binds(c) && BoundKey(c) == k
  }

  function KeysOf(cs: seq<Command>): set<Key> {
    set i | 0 <= i < |cs| && Binds(cs[i]) :: BoundKey(cs[i])
  }

  function CountBindings(cs: seq<Command>): nat {
    if cs == [] then 0 else CountBindings(cs[..|cs|-1]) + if Binds(cs[|cs|-1]) then 1 else 0
  }

  lemma ScopesBeforePrefix(cs: seq<Command>, n: nat, i: nat)
    requires i <= n <= |cs|
    ensures ScopesBefore(cs[..n], i) == ScopesBefore(cs, i)
  {
  }

  /** Scope set-up cannot fail once a context is bound, since nothing replaces a binding. */
  lemma {:induction false} ScopeStaysReady(s: Setup, cs: seq<Command>)
    requires Flat(cs) && ScopeReady(s.table)
    ensures ApplyAll(s, cs).Some? && ScopeReady(ApplyAll(s, cs).value.table)
  {
    if cs != [] {
      ScopeStaysReady(s, cs[..|cs|-1]);
    }
  }

  /** Before position `i`, the first binding of the context is an instance that is not const. */
  ghost predicate ContextBound(cs: seq<Command>, i: nat) {
    exists j: nat :: j < i && FirstToBind(cs, j, CONTEXT_KEY) && cs[j].BindToInstance? && cs[j].lhs.arg == CONTEXT
  }

  /** Configuration is fatal exactly when some scope is bound before there is a context. */
  lemma {:induction false} FatalExactly(cs: seq<Command>)
    requires Flat(cs)
    ensures ApplyAll(EMPTY, cs).None? <==>
      exists i :: 0 <= i < |cs| && cs[i].BindToScope? && !ContextBound(cs, i)
  {
    if cs != [] {
      var n := |cs| - 1;
      var before := cs[..n];
      FatalExactly(before);
      forall i | 0 <= i <= n ensures ContextBound(before, i) <==> ContextBound(cs, i) {
        ContextBoundPrefix(cs, n, i);
      }
      if ApplyAll(EMPTY, before).Some? {
        ReadyExactly(before);
      }
    }
  }

  lemma ContextBoundPrefix(cs: seq<Command>, n: nat, i: nat)
    requires i <= n <= |cs|
    ensures ContextBound(cs[..n], i) <==> ContextBound(cs, i)
  {
    hide BoundKey;
    forall j: nat | j < i ensures FirstToBind(cs[..n], j, CONTEXT_KEY) <==> FirstToBind(cs, j, CONTEXT_KEY) {
      assert forall l :: 0 <= l <= j ==> cs[..n][l] == cs[l];
    }
    if ContextBound(cs[..n], i) {
      var j: nat :| j < i && FirstToBind(cs[..n], j, CONTEXT_KEY) && cs[..n][j].BindToInstance? && cs[..n][j].lhs.arg == CONTEXT;
      assert FirstToBind(cs, j, CONTEXT_KEY);
    }
    if ContextBound(cs, i) {
      var j: nat :| j < i && FirstToBind(cs, j, CONTEXT_KEY) && cs[j].BindToInstance? && cs[j].lhs.arg == CONTEXT;
      assert FirstToBind(cs[..n], j, CONTEXT_KEY);
    }
  }

  lemma {:induction false} FirstBinder(cs: seq<Command>, k: Key) returns (i: nat)
    requires k in KeysOf(cs)
    ensures FirstToBind(cs, i, k)
  {
    i :| i < |cs| && BindsKey(cs[i], k);
    while exists j :: 0 <= j < i && BindsKey(cs[j], k)
      invariant i < |cs| && BindsKey(cs[i], k)
      decreases i
    {
      var j: nat :| j < i && BindsKey(cs[j], k);
      i := j;
    }
  }

  lemma ReadyExactly(cs: seq<Command>)
    requires Flat(cs) && ApplyAll(EMPTY, cs).Some?
    ensures ScopeReady(ApplyAll(EMPTY, cs).value.table) <==> ContextBound(cs, |cs|)
  {
    hide ApplyAll;
    TableExactly(cs);
    var s := ApplyAll(EMPTY, cs).value;
    if CONTEXT_KEY in s.table {
      var j := FirstBinder(cs, CONTEXT_KEY);
      assert s.owned[j] == OwnedBy(cs, j);
      HeldContext(cs[j], ScopesBefore(cs, j));
      if i: nat :| i < |cs| && FirstToBind(cs, i, CONTEXT_KEY) {
        assert BindsKey(cs[i], CONTEXT_KEY) && BindsKey(cs[j], CONTEXT_KEY);
      }
    }
  }

  lemma HeldContext(c: Command, index: nat)
    requires Binds(c) && BoundKey(c) == CONTEXT_KEY
    ensures var e := EntryOf(c, index);
      (e.BindToHeld? && e.how.HeldPointer? && ReadAs(Pointer(CONTEXT), e.ty) == Reads(false))
      <==> c.BindToInstance? && c.lhs.arg == CONTEXT
  {
  }

  /** The state of configuration after a flat list of calls, told without running it. */
  lemma {:induction false} TableExactly(cs: seq<Command>)
    requires Flat(cs) && ApplyAll(EMPTY, cs).Some?
    ensures var s := ApplyAll(EMPTY, cs).value;
      && |s.owned| == |cs| && s.scopes == ScopesBefore(cs, |cs|)
      && s.table.Keys == KeysOf(cs)
      && s.errors + |s.table| == CountBindings(cs)
      && (forall i: nat, k :: FirstToBind(cs, i, k) ==> k in s.table && s.table[k] == s.owned[i])
      && (forall i: nat :: i < |cs| ==> s.owned[i] == OwnedBy(cs, i))
  {
    if cs != [] {
      var n := |cs| - 1;
      var before := cs[..n];
      TableExactly(before);
      KeysOfAppend(cs);
      OneMoreCall(cs, ApplyAll(EMPTY, before).value);
    }
  }

  /** The entry that the `i`-th call hands over. */
  function OwnedBy(cs: seq<Command>, i: nat): Owned
    requires i < |cs| && Flat(cs)
  {
    if cs[i].AddCleanupAction? then Owned(i, InvalidEntry, cs[i].cleanup)
    else Owned(i, EntryOf(cs[i], ScopesBefore(cs, i)), ActionOf(cs[i], ScopesBefore(cs, i)))
  }

  /** The calls that hand over a cleanup action. */
  predicate Carries(c: Command) {
    c.BindToInstance? || c.BindRefToPointed? || c.BindPointerToProvider? || c.BindValueToProvider? || c.AddCleanupAction?
  }

  /** Deleting the entry of a call does what the call asked for, be the entry mapped or rejected;
      without such a request it does nothing, or frees the provider of a scope. */
  lemma CleanupsKept(cs: seq<Command>, i: nat)
    requires Flat(cs) && ApplyAll(EMPTY, cs).Some? && i < |cs|
    ensures |ApplyAll(EMPTY, cs).value.owned| == |cs|
    ensures var done := ApplyAll(EMPTY, cs).value.owned[i].onDelete;
      if Carries(cs[i]) then done == cs[i].cleanup
      else done == if cs[i].BindToScope? then FreeProvider(ScopesBefore(cs, i)) else NoAction
  {
    hide ApplyAll, EntryOf;
    TableExactly(cs);
    assert ApplyAll(EMPTY, cs).value.owned[i] == OwnedBy(cs, i);
  }

  function PassedBy(c: Command): seq<Action> {
    if Carries(c) && c.cleanup.UserAction? then [c.cleanup] else []
  }

  /** The user actions handed over, in order. */
  function PassedActions(cs: seq<Command>): seq<Action> {
    if cs == [] then [] else PassedBy(cs[0]) + PassedActions(cs[1..])
  }

  lemma {:induction false} PassedAppend(cs: seq<Command>, ds: seq<Command>)
    ensures PassedActions(cs + ds) == PassedActions(cs) + PassedActions(ds)
    decreases |cs|
  {
    hide PassedBy;
    if cs == [] {
      assert cs + ds == ds;
    } else {
      PassedAppend(cs[1..], ds);
      assert (cs + ds)[0] == cs[0] && (cs + ds)[1..] == cs[1..] + ds;
      assert PassedActions(cs + ds) == PassedBy(cs[0]) + PassedActions(cs[1..] + ds);
    }
  }

  lemma OneMoreCall(cs: seq<Command>, s0: Setup)
    requires cs != [] && Flat(cs)
    requires var before := cs[..|cs|-1];
      && |s0.owned| == |before| && s0.scopes == ScopesBefore(before, |before|)
      && s0.table.Keys == KeysOf(before)
      && (forall i: nat, k :: FirstToBind(before, i, k) ==> k in s0.table && s0.table[k] == s0.owned[i])
      && (forall i: nat :: i < |before| ==> s0.owned[i] == OwnedBy(before, i))
    requires Apply(s0, cs[|cs|-1]).Some?
    ensures var s := Apply(s0, cs[|cs|-1]).value;
      && |s.owned| == |cs| && s.scopes == ScopesBefore(cs, |cs|)
      && (forall i: nat, k :: FirstToBind(cs, i, k) ==> k in s.table && s.table[k] == s.owned[i])
      && (forall i: nat :: i < |cs| ==> s.owned[i] == OwnedBy(cs, i))
  {
    hide EntryOf, BoundKey, ActionOf;
    var n := |cs| - 1;
    var before := cs[..n];
    var s := Apply(s0, cs[n]).value;
    ScopesBeforePrefix(cs, n, n);
    assert s.owned[..n] == s0.owned;
    forall i: nat, k | FirstToBind(cs, i, k) ensures k in s.table && s.table[k] == s.owned[i] {
      if i < n {
        assert FirstToBind(before, i, k);
      }
    }
    forall i: nat | i < |cs| ensures s.owned[i] == OwnedBy(cs, i) {
      ScopesBeforePrefix(cs, n, i);
      if i < n { assert s.owned[i] == s0.owned[i] && cs[i] == before[i]; }
    }
  }

  lemma KeysOfAppend(cs: seq<Command>)
    requires cs != []
    ensures var c := cs[|cs|-1];
      KeysOf(cs) == KeysOf(cs[..|cs|-1]) + if Binds(c) then {BoundKey(c)} else {}
  {
    var n := |cs| - 1;
    forall k ensures k in KeysOf(cs) <==> k in KeysOf(cs[..n]) || BindsKey(cs[n], k) {
      if k in KeysOf(cs) {
        var i :| 0 <= i < |cs| && Binds(cs[i]) && BoundKey(cs[i]) == k;
        if i < n { assert cs[..n][i] == cs[i]; }
      }
      if k in KeysOf(cs[..n]) {
        var i :| 0 <= i < n && Binds(cs[..n][i]) && BoundKey(cs[..n][i]) == k;
        assert cs[i] == cs[..n][i];
      }
    }
  }

  // ---- Errors ----

  ghost predicate DistinctKeys(cs: seq<Command>) {
    forall i, j :: 0 <= i < j < |cs| && Binds(cs[i]) && Binds(cs[j]) ==> BoundKey(cs[i]) != BoundKey(cs[j])
  }

  lemma DistinctAppend(cs: seq<Command>)
    requires cs != []
    ensures var c, before := cs[|cs|-1], cs[..|cs|-1];
      DistinctKeys(cs) <==> DistinctKeys(before) && (Binds(c) ==> BoundKey(c) !in KeysOf(before))
  {
    hide BoundKey;
    var n := |cs| - 1;
    var before := cs[..n];
    assert forall i :: 0 <= i < n ==> before[i] == cs[i];
    if DistinctKeys(cs) {
      forall i, j | 0 <= i < j < n && Binds(before[i]) && Binds(before[j])
        ensures BoundKey(before[i]) != BoundKey(before[j])
      {
        assert cs[i] == before[i] && cs[j] == before[j];
      }
    } else {
      var i, j :| 0 <= i < j < |cs| && Binds(cs[i]) && Binds(cs[j]) && BoundKey(cs[i]) == BoundKey(cs[j]);
      assert before[i] == cs[i];
      if j < n { assert before[j] == cs[j]; }
    }
  }

  lemma {:induction false} CountDistinct(cs: seq<Command>)
    ensures |KeysOf(cs)| <= CountBindings(cs)
    ensures |KeysOf(cs)| == CountBindings(cs) <==> DistinctKeys(cs)
  {
    hide BoundKey, DistinctKeys, KeysOf;
    if cs == [] {
      NoKeys();
    } else {
      CountDistinct(cs[..|cs|-1]);
      KeysOfAppend(cs);
      DistinctAppend(cs);
    }
  }

  lemma NoKeys()
    ensures KeysOf([]) == {} && DistinctKeys([])
  {
  }

  /** The error count is the number of bindings that came too late, and no error is counted
      exactly when every key is bound once. */
  lemma ErrorsExactly(cs: seq<Command>)
    requires Flat(cs) && ApplyAll(EMPTY, cs).Some?
    ensures ApplyAll(EMPTY, cs).value.errors == CountBindings(cs) - |KeysOf(cs)|
    ensures ApplyAll(EMPTY, cs).value.errors == 0 <==> DistinctKeys(cs)
  {
    TableExactly(cs);
    CountDistinct(cs);
    var s := ApplyAll(EMPTY, cs).value;
    assert |s.table| == |s.table.Keys|;
  }

  // ---- Permuting bindings ----

  /** What the resolver sees of a table: the entries, not who owns them. */
  function Entries(table: map<Key, Owned>): map<Key, Entry> {
    map k | k in table :: table[k].entry
  }

  function TableOf(s: Setup): map<Key, Entry> {
    Entries(s.table)
  }

  function ScopeCalls(cs: seq<Command>): seq<Command> {
    if cs == [] then []
    else ScopeCalls(cs[..|cs|-1]) + if cs[|cs|-1].BindToScope? then [cs[|cs|-1]] else []
  }

  lemma {:induction false} ScopePosition(cs: seq<Command>, i: nat)
    requires i < |cs| && cs[i].BindToScope?
    ensures ScopesBefore(cs, i) < |ScopeCalls(cs)| == ScopesBefore(cs, |cs|)
    ensures ScopeCalls(cs)[ScopesBefore(cs, i)] == cs[i]
    decreases |cs|
  {
    var n := |cs| - 1;
    ScopeCount(cs[..n]);
    ScopesBeforePrefix(cs, n, n);
    if i < n {
      ScopePosition(cs[..n], i);
      ScopesBeforePrefix(cs, n, i);
    }
  }

  lemma {:induction false} ScopeCount(cs: seq<Command>)
    ensures |ScopeCalls(cs)| == ScopesBefore(cs, |cs|)
  {
    if cs != [] {
      ScopeCount(cs[..|cs|-1]);
      ScopesBeforePrefix(cs, |cs| - 1, |cs| - 1);
    }
  }

  lemma EntryWhereBound(cs: seq<Command>, i: nat)
    requires Flat(cs) && DistinctKeys(cs) && ApplyAll(EMPTY, cs).Some?
    requires i < |cs| && Binds(cs[i])
    ensures var t := TableOf(ApplyAll(EMPTY, cs).value);
      BoundKey(cs[i]) in t && t[BoundKey(cs[i])] == EntryOf(cs[i], ScopesBefore(cs, i))
  {
    TableExactly(cs);
    assert FirstToBind(cs, i, BoundKey(cs[i])) by {
      forall j | 0 <= j < i ensures !BindsKey(cs[j], BoundKey(cs[i])) {
      }
    }
  }

  /** Two entries that differ at most in the position of their provider in the init list. */
  predicate SameBinding(e: Entry, f: Entry) {
    e == f || (e.Singleton? && f.Singleton? && e.ty == f.ty)
  }

  lemma SameEntries(cs: seq<Command>, ds: seq<Command>, k: Key)
    requires Flat(cs) && Flat(ds) && multiset(cs) == multiset(ds)
    requires DistinctKeys(cs) && DistinctKeys(ds)
    requires ApplyAll(EMPTY, cs).Some? && ApplyAll(EMPTY, ds).Some?
    requires k in TableOf(ApplyAll(EMPTY, cs).value)
    ensures k in TableOf(ApplyAll(EMPTY, ds).value)
    ensures SameBinding(TableOf(ApplyAll(EMPTY, cs).value)[k], TableOf(ApplyAll(EMPTY, ds).value)[k])
  {
    hide ApplyAll, BoundKey;
    TableExactly(cs);
    var i: nat :| i < |cs| && Binds(cs[i]) && BoundKey(cs[i]) == k;
    assert cs[i] in multiset(ds);
    var j: nat :| j < |ds| && ds[j] == cs[i];
    EntryWhereBound(cs, i);
    EntryWhereBound(ds, j);
  }

  lemma TwicePositions(cs: seq<Command>, i: nat, j: nat)
    requires i < j < |cs| && cs[i] == cs[j]
    ensures multiset(cs)[cs[i]] >= 2
  {
    assert cs == cs[..j] + [cs[j]] + cs[j+1..];
    assert cs[i] in cs[..j];
  }

  lemma PositionsTwice(cs: seq<Command>, c: Command)
    requires multiset(cs)[c] >= 2
    ensures exists i, j :: 0 <= i < j < |cs| && cs[i] == c && cs[j] == c
  {
    var i :| 0 <= i < |cs| && cs[i] == c;
    assert cs == cs[..i] + [cs[i]] + cs[i+1..];
    if c in cs[..i] {
      var k :| 0 <= k < i && cs[..i][k] == c;
      assert cs[k] == c;
    } else {
      assert multiset(cs) == multiset(cs[..i]) + multiset([cs[i]]) + multiset(cs[i+1..]);
      assert c in cs[i+1..];
      var k :| 0 <= k < |cs| - i - 1 && cs[i+1..][k] == c;
      assert cs[i+1+k] == c;
    }
  }

  lemma DistinctIsPermutable(cs: seq<Command>, ds: seq<Command>)
    requires multiset(cs) == multiset(ds) && DistinctKeys(cs)
    ensures DistinctKeys(ds)
  {
    forall i, j | 0 <= i < j < |ds| && Binds(ds[i]) && Binds(ds[j]) ensures BoundKey(ds[i]) != BoundKey(ds[j]) {
      if ds[i] == ds[j] {
        TwicePositions(ds, i, j);
        PositionsTwice(cs, ds[i]);
      } else {
        assert ds[i] in multiset(cs) && ds[j] in multiset(cs);
        var a :| 0 <= a < |cs| && cs[a] == ds[i];
        var b :| 0 <= b < |cs| && cs[b] == ds[j];
      }
    }
  }

  /** When no key is bound twice, the order of the bindings does not matter: any permutation
      leads to the same table, up to the positions of providers in the init list. */
  lemma PermutedModules(cs: seq<Command>, ds: seq<Command>)
    requires Flat(cs) && Flat(ds) && multiset(cs) == multiset(ds) && DistinctKeys(cs)
    requires ApplyAll(EMPTY, cs).Some? && ApplyAll(EMPTY, ds).Some?
    ensures var t, u := TableOf(ApplyAll(EMPTY, cs).value), TableOf(ApplyAll(EMPTY, ds).value);
      t.Keys == u.Keys && forall k :: k in t ==> SameBinding(t[k], u[k])
    ensures ApplyAll(EMPTY, ds).value.errors == 0
  {
    hide ApplyAll, BoundKey, SameBinding, TableOf;
    DistinctIsPermutable(cs, ds);
    ErrorsExactly(ds);
    var t, u := TableOf(ApplyAll(EMPTY, cs).value), TableOf(ApplyAll(EMPTY, ds).value);
    forall k | k in t ensures k in u && SameBinding(t[k], u[k]) {
      SameEntries(cs, ds, k);
    }
    forall k | k in u ensures k in t {
      SameEntries(ds, cs, k);
    }
  }

  // ---- The wrapper module ----

  /** The context first, then the user's module, and the cleanup of singletons last. */
  function Wrapper(user: Module): Module {
    Module([
      BindToInstance(At(NormalInject, NotLabelled, CONTEXT), 0, FreeContext),
      Install(user),
      AddCleanupAction(CleanupSingletons)
    ])
  }

  function WrapperCalls(user: Module): (cs: seq<Command>)
    ensures Flat(cs)
  {
    FlattenAll(Wrapper(user).body)
  }

  /** Users hand over instances and providers with actions of their own or none. */
  predicate UserModule(m: Module) {
    var cs := FlattenAll(m.body);
    forall i :: 0 <= i < |cs| ==>
      match cs[i]
      case BindToScope(_) => true
      case AddCleanupAction(cleanup) => IsUserAction(cleanup)
      case c => Binds(c) ==> IsUserAction(ActionOf(c, 0))
  }

  predicate IsUserAction(a: Action) {
    a.NoAction? || a.UserAction?
  }

  lemma WrapperCallsShape(user: Module)
    ensures WrapperCalls(user) == [Wrapper(user).body[0]] + FlattenAll(user.body) + [Wrapper(user).body[2]]
  {
    var body := Wrapper(user).body;
    var first, last := body[0], body[2];
    FlattenCons(first, [body[1], last]);
    FlattenCons(body[1], [last]);
    FlattenCons(last, []);
    assert body == [first] + [body[1], last] && [body[1], last] == [body[1]] + [last] && [last] == [last] + [];
    assert Flatten(body[1]) == FlattenAll(user.body);
  }

  lemma FlattenCons(c: Command, cs: seq<Command>)
    ensures FlattenAll([c] + cs) == Flatten(c) + FlattenAll(cs)
  {
    assert ([c] + cs)[1..] == cs;
  }

  lemma ApplyOne(s: Setup, c: Command)
    requires !c.Install?
    ensures Flat([c]) && ApplyAll(s, [c]) == Apply(s, c)
  {
    assert [c][..0] == [];
  }

  /** With the wrapper, setting up a scope never fails. */
  lemma WrapperNeverFatal(user: Module)
    ensures ApplyAll(EMPTY, WrapperCalls(user)).Some?
  {
    WrapperCallsShape(user);
    var first := [Wrapper(user).body[0]];
    var rest := FlattenAll(user.body) + [Wrapper(user).body[2]];
    assert WrapperCalls(user) == first + rest;
    ApplyOne(EMPTY, first[0]);
    assert ReadAs(Pointer(CONTEXT), Pointer(CONTEXT)) == Reads(false);
    var s := ApplyAll(EMPTY, first).value;
    assert BoundKey(first[0]) == CONTEXT_KEY;
    assert ScopeReady(s.table);
    ApplyAllAppend(EMPTY, first, rest);
    ScopeStaysReady(s, rest);
  }

  lemma {:induction false} ScopesBeforeGrows(cs: seq<Command>, i: nat, j: nat)
    requires i <= j <= |cs|
    ensures ScopesBefore(cs, i) <= ScopesBefore(cs, j)
    ensures i < j && cs[i].BindToScope? ==> ScopesBefore(cs, i) < ScopesBefore(cs, j)
    decreases j - i
  {
    if i < j {
      ScopesBeforeGrows(cs, i, j - 1);
    }
  }

  /** What teardown relies on. */
  predicate WrapperLayout(owned: seq<Owned>, providers: nat) {
    && |owned| >= 2
    && owned[0].onDelete == FreeContext
    && owned[|owned|-1].onDelete == CleanupSingletons
    && (forall i :: 0 < i < |owned| - 1 ==>
          || IsUserAction(owned[i].onDelete)
          || (owned[i].onDelete.FreeProvider? && owned[i].onDelete.index < providers))
    && (forall i, j :: 0 < i < j < |owned| - 1 && owned[i].onDelete.FreeProvider? ==>
          owned[i].onDelete != owned[j].onDelete)
    && (forall j: nat :: j < providers ==> Frees(owned, j))
  }

  predicate Frees(owned: seq<Owned>, provider: nat) {
    exists i :: 0 < i < |owned| - 1 && owned[i].onDelete == FreeProvider(provider)
  }

  lemma WrapperSlot(user: Module, cs: seq<Command>, owned: seq<Owned>, i: nat)
    requires UserModule(user) && Flat(cs) && |owned| == |cs| && 0 < i < |cs| - 1
    requires cs == [Wrapper(user).body[0]] + FlattenAll(user.body) + [Wrapper(user).body[2]]
    requires owned[i] == OwnedBy(cs, i)
    ensures owned[i].onDelete.FreeProvider? ==>
      cs[i].BindToScope? && owned[i].onDelete.index == ScopesBefore(cs, i) < ScopesBefore(cs, |cs|)
    ensures !owned[i].onDelete.FreeProvider? ==> IsUserAction(owned[i].onDelete)
  {
    hide EntryOf, ScopesBefore;
    assert cs[i] == FlattenAll(user.body)[i-1];
    ScopesBeforeGrows(cs, i, |cs|);
  }

  /** The wrapper leaves exactly the layout that teardown relies on. */
  lemma WrapperOwns(user: Module)
    requires UserModule(user)
    ensures ApplyAll(EMPTY, WrapperCalls(user)).Some?
    ensures var s := ApplyAll(EMPTY, WrapperCalls(user)).value;
      WrapperLayout(s.owned, s.scopes) && forall i :: 0 <= i < |s.owned| ==> s.owned[i].serial == i
  {
    hide ApplyAll, EntryOf, ScopesBefore, FlattenAll;
    WrapperNeverFatal(user);
    WrapperCallsShape(user);
    var cs := WrapperCalls(user);
    TableExactly(cs);
    var owned := ApplyAll(EMPTY, cs).value.owned;
    assert owned[0] == OwnedBy(cs, 0) && owned[|cs|-1] == OwnedBy(cs, |cs| - 1);
    forall i | 0 < i < |owned| - 1
      ensures owned[i].onDelete.FreeProvider? ==>
        cs[i].BindToScope? && owned[i].onDelete.index == ScopesBefore(cs, i) < ScopesBefore(cs, |cs|)
      ensures !owned[i].onDelete.FreeProvider? ==> IsUserAction(owned[i].onDelete)
    {
      WrapperSlot(user, cs, owned, i);
    }
    forall i, j | 0 < i < j < |owned| - 1 && owned[i].onDelete.FreeProvider?
      ensures owned[i].onDelete != owned[j].onDelete
    {
      ScopesBeforeGrows(cs, i, j);
    }
    forall j: nat | j < ScopesBefore(cs, |cs|) ensures Frees(owned, j) {
      ScopeCount(cs);
      var i := ScopeCallAt(cs, j);
      CleanupsKept(cs, i);
    }
  }

  // ---- Providers and their keys ----

  function ScopeKeys(cs: seq<Command>): (ks: seq<Key>)
    ensures |ks| == |ScopeCalls(cs)|
  {
    ScopeCallsBind(cs);
    var calls := ScopeCalls(cs);
    seq(|calls|, i requires 0 <= i < |calls| => BoundKey(calls[i]))
  }

  lemma {:induction false} ScopeCallsBind(cs: seq<Command>)
    ensures forall i :: 0 <= i < |ScopeCalls(cs)| ==> ScopeCalls(cs)[i].BindToScope?
  {
    if cs != [] { ScopeCallsBind(cs[..|cs|-1]); }
  }

  lemma {:induction false} ScopeCallAt(cs: seq<Command>, j: nat) returns (i: nat)
    requires j < |ScopeCalls(cs)|
    ensures i < |cs| && cs[i].BindToScope? && ScopesBefore(cs, i) == j && cs[i] == ScopeCalls(cs)[j]
  {
    var n := |cs| - 1;
    ScopeCount(cs[..n]);
    if j < |ScopeCalls(cs[..n])| {
      i := ScopeCallAt(cs[..n], j);
      ScopesBeforePrefix(cs, n, i);
    } else {
      i := n;
      ScopesBeforePrefix(cs, n, n);
    }
  }

  /** In a configuration without errors, each provider of the init list answers for one key. */
  lemma ProvidersMatchKeys(cs: seq<Command>, classes: map<Type, ClassInfo>)
    requires Flat(cs) && DistinctKeys(cs) && ApplyAll(EMPTY, cs).Some?
    ensures var s := ApplyAll(EMPTY, cs).value;
      && KeysMatch(Config(TableOf(s), classes), ScopeKeys(cs)) && |ScopeKeys(cs)| == s.scopes
  {
    hide ApplyAll, TableOf, ScopeKeys, BoundKey, EntryOf;
    var s := ApplyAll(EMPTY, cs).value;
    var keys := ScopeKeys(cs);
    var t := TableOf(s);
    TableExactly(cs);
    ScopeCount(cs);
    forall j | 0 <= j < |keys| ensures keys[j] in t && t[keys[j]].Singleton? && t[keys[j]].index == j {
      KeyOfProvider(cs, j);
    }
    forall k | k in t && t[k].Singleton? ensures t[k].index < |keys| && keys[t[k].index] == k {
      ProviderOfKey(cs, k);
    }
  }

  lemma KeyOfProvider(cs: seq<Command>, j: nat)
    requires Flat(cs) && DistinctKeys(cs) && ApplyAll(EMPTY, cs).Some? && j < |ScopeKeys(cs)|
    ensures var t, k := TableOf(ApplyAll(EMPTY, cs).value), ScopeKeys(cs)[j];
      k in t && t[k].Singleton? && t[k].index == j
  {
    hide ApplyAll, TableOf;
    var i := ScopeCallAt(cs, j);
    EntryWhereBound(cs, i);
  }

  lemma ProviderOfKey(cs: seq<Command>, k: Key)
    requires Flat(cs) && DistinctKeys(cs) && ApplyAll(EMPTY, cs).Some?
    requires k in TableOf(ApplyAll(EMPTY, cs).value) && TableOf(ApplyAll(EMPTY, cs).value)[k].Singleton?
    ensures var index := TableOf(ApplyAll(EMPTY, cs).value)[k].index;
      index < |ScopeKeys(cs)| && ScopeKeys(cs)[index] == k
  {
    hide ApplyAll;
    TableExactly(cs);
    var i: nat :| i < |cs| && Binds(cs[i]) && BoundKey(cs[i]) == k;
    EntryWhereBound(cs, i);
    ScopePosition(cs, i);
  }
}
