/** Keys, requests, table entries and default entries, and the compile-time dispatch that
    turns one request into a plan of what the container does next. */
module Bindings {
  import opened CppTypes

  datatype InjectType = NormalInject | Assisted

  /** `UnScoped` is the internal label under which a singleton provider asks for its object. */
  datatype Label = NotLabelled | UnScoped | UserLabel(id: nat)

  /** The identity of `LabelHelper<InjectType, Label, TypeSpecifier>`. */
  datatype Key = Key(inject: InjectType, tag: Label, spec: Type)

  datatype Request = Request(inject: InjectType, tag: Label, ty: Type)

  function KeyOf(r: Request): Key {
    Key(r.inject, r.tag, TypeSpecifier(r.ty))
  }

  datatype Held = HeldPointer | HeldValue | HeldReference

  /** Table entries; `ty` is the type each one is a `TableEntry` of.
      `Singleton` is a provider entry that holds a `LazySingletonProvider`, named by its
      position in the init list. */
  datatype Entry =
    | BindToType(ty: Type, dest: Request)
    | BindToHeld(ty: Type, how: Held, id: nat)
    | BindToProvider(ty: Type, id: nat, args: seq<Request>)
    | Singleton(ty: Type, index: nat)
    | BindToCtor(ty: Type, args: seq<Request>)
    | InvalidEntry

  /** A factory interface: its result and its parameters, each with a label. */
  datatype Signature = Signature(result: Type, params: seq<Param>)
  datatype Param = Param(tag: Label, ty: Type)

  /** What is known at compile time about a class: internal to the container, made injectable
      with a constructor, or made injectable without one. Types outside the map are not classes. */
  datatype ClassInfo =
    | InjectorClass
    | FactoryClass(sig: Signature)
    | Injectable(ctor: seq<Request>)
    | NotConstructible

  datatype Config = Config(table: map<Key, Entry>, classes: map<Type, ClassInfo>)

  /** One slot of a local context: the key and the type of a factory parameter. */
  datatype Formal = Formal(key: Key, ty: Type)

  datatype Reason = MissingBinding | MissingAssisted | BadConversion | WrongTypeId | WrongDowncast

  /** A value that exists before resolution starts. */
  datatype Atom = Given(id: nat, ty: Type) | InjectorItself(spec: Type)

  /** Who makes a heap cell: a constructor, a call of a user provider with the arguments that
      its `Get` declares, or the internal handler for factories. */
  datatype Maker =
    | New(spec: Type)
    | CallProvider(id: nat, ty: Type, args: seq<Request>)
    | NewFactory(tag: Label, spec: Type)

  /** What one request amounts to. `copy` says that the result is copied out of a reference. */
  datatype Plan =
    | Stop(why: Reason)
    | TakeParam(i: nat, copy: bool)
    | TakeAtom(atom: Atom, copy: bool)
    | Forward(to: Type, dest: Request, copy: bool)
    | Invoke(maker: Maker, args: seq<Request>, copy: bool)
    | Once(key: Key, inner: Request, copy: bool)

  /** Position of the first slot with this key, or the number of slots. */
  function FirstSlot(formals: seq<Formal>, key: Key): (i: nat)
    ensures i <= |formals|
    ensures i < |formals| ==> formals[i].key == key
    ensures forall j :: 0 <= j < i ==> formals[j].key != key
  {
    if formals == [] then 0
    else if formals[0].key == key then 0
    else 1 + FirstSlot(formals[1..], key)
  }

  /** The request by which a singleton provider of entry type `ty` creates its object. */
  function UnScopedRequest(ty: Type): Request {
    Request(NormalInject, UnScoped, ty)
  }

  function PlanEntry(e: Entry, req: Request): Plan {
    if e.InvalidEntry? then Stop(MissingBinding)
    else match ReadAs(req.ty, e.ty)
      case TypeIdMismatch => Stop(WrongTypeId)
      case NoConversion => Stop(BadConversion)
      case BadDowncast => Stop(WrongDowncast)
      case Reads(copy) =>
        match e
        case BindToType(ty, dest) => Forward(ty, dest, copy)
        case BindToHeld(ty, _, id) => TakeAtom(Given(id, ty), copy)
        case BindToProvider(ty, id, args) => Invoke(CallProvider(id, ty, args), args, copy)
        case Singleton(ty, _) => Once(KeyOf(req), UnScopedRequest(ty), copy)
        case BindToCtor(_, args) => Invoke(New(TypeSpecifier(req.ty)), args, copy)
  }

  function DefaultEntry(info: ClassInfo, spec: Type): Entry {
    match info
    case Injectable(ctor) => BindToCtor(Pointer(spec), ctor)
    case _ => InvalidEntry
  }

  predicate InternalClass(classes: map<Type, ClassInfo>, spec: Type) {
    spec in classes && (classes[spec].InjectorClass? || classes[spec].FactoryClass?)
  }

  predicate IsInternal(cfg: Config, spec: Type) {
    InternalClass(cfg.classes, spec)
  }

  /** The handler for internal types: the injector itself, or a new factory. */
  function PlanInternal(info: ClassInfo, req: Request): Plan {
    var spec := TypeSpecifier(req.ty);
    if info.InjectorClass? then TakeAtom(InjectorItself(spec), false)
    else Invoke(NewFactory(req.tag, spec), [], false)
  }

  /** Reading the `i`-th argument of the local context. */
  function PlanArgument(ty: Type, i: nat, req: Request): Plan {
    match ReadAs(req.ty, ty)
    case TypeIdMismatch => Stop(WrongTypeId)
    case NoConversion => Stop(BadConversion)
    case BadDowncast => Stop(WrongDowncast)
    case Reads(copy) => TakeParam(i, copy)
  }

  /** The four inject handlers. The plan sees the keys and types of the local context,
      never the values in it. */
  function PlanOf(cfg: Config, formals: seq<Formal>, req: Request): (p: Plan)
    ensures p.TakeParam? ==>
      req.inject.Assisted? && p.i == FirstSlot(formals, KeyOf(req)) && p.i < |formals|
  {
    var spec := TypeSpecifier(req.ty);
    if req.inject.Assisted? then
      var i := FirstSlot(formals, KeyOf(req));
      if i == |formals| then Stop(MissingAssisted) else PlanArgument(formals[i].ty, i, req)
    else if IsInternal(cfg, spec) then PlanInternal(cfg.classes[spec], req)
    else if KeyOf(req) in cfg.table then PlanEntry(cfg.table[KeyOf(req)], req)
    else if spec in cfg.classes then PlanEntry(DefaultEntry(cfg.classes[spec], spec), req)
    else Stop(MissingBinding)
  }

  /** The arguments that a maker declares. */
  function DeclaredArgs(cfg: Config, m: Maker): seq<Request> {
    match m
    case New(spec) => if spec in cfg.classes && cfg.classes[spec].Injectable? then cfg.classes[spec].ctor else []
    case CallProvider(_, _, args) => args
    case NewFactory(_, _) => []
  }

  /** Requests that a plan resolves in turn. */
  function SubRequests(p: Plan): seq<Request> {
    match p
    case Forward(_, dest, _) => [dest]
    case Invoke(_, args, _) => args
    case Once(_, inner, _) => [inner]
    case _ => []
  }

  /** What the binder and the compiler guarantee of every table entry: it is keyed by its own
      specifier, under no internal label, and never answers for an internal type. */
  predicate WellBound(cfg: Config) {
    forall k :: k in cfg.table ==> WellBoundEntry(cfg, k, cfg.table[k])
  }

  predicate WellBoundEntry(cfg: Config, k: Key, e: Entry) {
    && k.inject == NormalInject && k.tag != UnScoped && !IsInternal(cfg, k.spec)
    && !e.BindToCtor? && !e.InvalidEntry?
    && Unqualified(e.ty) && TypeSpecifier(e.ty) == k.spec
    && (e.Singleton? ==> e.ty.Pointer?)
  }

  /** Providers and singleton keys correspond one to one. */
  predicate KeysMatch(cfg: Config, keys: seq<Key>) {
    && (forall i :: 0 <= i < |keys| ==>
          keys[i] in cfg.table && cfg.table[keys[i]].Singleton? && cfg.table[keys[i]].index == i)
    && (forall k :: k in cfg.table && cfg.table[k].Singleton? ==>
          cfg.table[k].index < |keys| && keys[cfg.table[k].index] == k)
  }
}
