/** The binding graph, a memo-free resolver over it, and the exact condition under which
    that resolver succeeds. */
module ResolutionGraph {
  import opened CppTypes
  import opened Bindings

  /** A request together with the shape of the local context it is resolved in. */
  datatype Node = Node(formals: seq<Formal>, req: Request)

  /** The key of a factory parameter, and the context that `RealFactory::Get` builds. */
  function FormalOf(p: Param): Formal {
    Formal(Key(Assisted, p.tag, TypeSpecifier(ActualType(p.ty))), ActualType(p.ty))
  }

  function FactoryCall(sig: Signature, tag: Label): (n: Node)
    ensures |n.formals| == |sig.params|
  {
    Node(seq(|sig.params|, i requires 0 <= i < |sig.params| => FormalOf(sig.params[i])),
         Request(NormalInject, tag, sig.result))
  }

  function PlanAt(cfg: Config, n: Node): Plan {
    PlanOf(cfg, n.formals, n.req)
  }

  /** A singleton provider starts over in an empty local context. */
  function SubFormals(p: Plan, formals: seq<Formal>): seq<Formal> {
    if p.Once? then [] else formals
  }

  function Kids(cfg: Config, n: Node): (ns: seq<Node>)
    ensures |ns| == |SubRequests(PlanAt(cfg, n))|
    ensures forall i :: 0 <= i < |ns| ==> ns[i].formals == SubFormals(PlanAt(cfg, n), n.formals)
  {
    var p := PlanAt(cfg, n);
    var rs := SubRequests(p);
    seq(|rs|, i requires 0 <= i < |rs| => Node(SubFormals(p, n.formals), rs[i]))
  }

  /** What an object looks like when followed through its dependencies. */
  datatype Tree =
    | Leaf(atom: Atom)
    | Parameter(i: nat)
    | Made(maker: Maker, deps: seq<Tree>)
    | Copied(of: Tree)
    | ConvertedTo(to: Type, of: Tree)

  function CopyTree(copy: bool, t: Tree): Tree {
    if copy then Copied(t) else t
  }

  /** Returning a `from` where a `to` is expected: pointers and references stay the same. */
  predicate KeepsIdentity(from: Type, to: Type) {
    to.Pointer? || to.Reference? || from == to
  }

  function ConvertTree(from: Type, to: Type, t: Tree): Tree {
    if KeepsIdentity(from, to) then t else ConvertedTo(to, t)
  }

  function BuildTree(p: Plan, ts: seq<Tree>): Tree
    requires !p.Stop? && |ts| == |SubRequests(p)|
  {
    match p
    case TakeParam(i, copy) => CopyTree(copy, Parameter(i))
    case TakeAtom(atom, copy) => CopyTree(copy, Leaf(atom))
    case Forward(to, dest, copy) => CopyTree(copy, ConvertTree(dest.ty, to, ts[0]))
    case Invoke(maker, _, copy) => CopyTree(copy, Made(maker, ts))
    case Once(_, _, copy) => CopyTree(copy, ts[0])
  }

  datatype Denotation = Defined(tree: Tree) | Undefined(why: Reason) | Deeper

  predicate AllDefined(ds: seq<Denotation>) {
    forall i :: 0 <= i < |ds| ==> ds[i].Defined?
  }

  function TreesOf(ds: seq<Denotation>): (ts: seq<Tree>)
    requires AllDefined(ds)
    ensures |ts| == |ds| && forall i :: 0 <= i < |ds| ==> ts[i] == ds[i].tree
  {
    seq(|ds|, i requires 0 <= i < |ds| => ds[i].tree)
  }

  function FirstBad(ds: seq<Denotation>): (d: Denotation)
    requires !AllDefined(ds)
    ensures d in ds && !d.Defined?
  {
    if !ds[0].Defined? then ds[0] else FirstBad(ds[1..])
  }

  /** Resolution without a singleton cache; `fuel` bounds the depth of the recursion. */
  function Denote(cfg: Config, n: Node, fuel: nat): Denotation
    decreases fuel, 0
  {
    var p := PlanAt(cfg, n);
    if fuel == 0 then Deeper
    else if p.Stop? then Undefined(p.why)
    else
      var ds := DenoteAll(cfg, Kids(cfg, n), fuel - 1);
      if AllDefined(ds) then Defined(BuildTree(p, TreesOf(ds))) else FirstBad(ds)
  }

  function DenoteAll(cfg: Config, ns: seq<Node>, fuel: nat): (ds: seq<Denotation>)
    ensures |ds| == |ns|
    decreases fuel, 1 + |ns|
  {
    if ns == [] then [] else [Denote(cfg, ns[0], fuel)] + DenoteAll(cfg, ns[1..], fuel)
  }

  lemma {:induction false} DenoteAllAt(cfg: Config, ns: seq<Node>, fuel: nat, i: nat)
    requires i < |ns|
    ensures DenoteAll(cfg, ns, fuel)[i] == Denote(cfg, ns[i], fuel)
    decreases |ns|
  {
    if i > 0 {
      DenoteAllAt(cfg, ns[1..], fuel, i - 1);
    }
  }

  /** Paths of requests, each one a sub-request of the one before. */
  ghost predicate IsPath(cfg: Config, p: seq<Node>) {
    && |p| > 0
    && forall i :: 0 < i < |p| ==> p[i] in Kids(cfg, p[i-1])
  }

  ghost predicate PathBetween(cfg: Config, p: seq<Node>, from: Node, to: Node) {
    IsPath(cfg, p) && p[0] == from && p[|p|-1] == to
  }

  ghost predicate Reaches(cfg: Config, from: Node, to: Node) {
    exists p :: PathBetween(cfg, p, from, to)
  }

  /** The binding that answers a request: a table entry or a class's default entry. */
  datatype Site = AtKey(key: Key) | AtClass(spec: Type) | NoBinding

  function SiteOf(cfg: Config, req: Request): Site {
    var spec := TypeSpecifier(req.ty);
    if req.inject.Assisted? || IsInternal(cfg, spec) then NoBinding
    else if KeyOf(req) in cfg.table then AtKey(KeyOf(req))
    else if spec in cfg.classes then AtClass(spec)
    else NoBinding
  }

  /** No request that has to be resolved ends fatally on its own. */
  ghost predicate Clean(cfg: Config, n: Node) {
    forall m :: Reaches(cfg, n, m) ==> !PlanAt(cfg, m).Stop?
  }

  /** Resolution never comes back to a binding that it is still working on. */
  ghost predicate Acyclic(cfg: Config, n: Node) {
    forall p :: IsPath(cfg, p) && p[0] == n ==> NoRepeat(cfg, p)
  }

  ghost predicate NoRepeat(cfg: Config, p: seq<Node>) {
    forall i, j :: 0 <= i < j < |p| ==> SiteOf(cfg, p[i].req) != SiteOf(cfg, p[j].req)
  }

  /** One more than the number of bindings: enough depth for every resolution that succeeds. */
  function Limit(cfg: Config): nat {
    |cfg.table| + |cfg.classes| + 1
  }

  // ---- Fuel ----

  /** More depth never changes a result, be it a tree or a failure. */
  lemma {:induction false} DenoteMonotone(cfg: Config, n: Node, f: nat, g: nat)
    requires f <= g && Denote(cfg, n, f) != Deeper
    ensures Denote(cfg, n, g) == Denote(cfg, n, f)
    decreases f, 0
  {
    hide PlanOf, Kids, BuildTree;
    if !PlanAt(cfg, n).Stop? {
      DenoteAllMonotone(cfg, Kids(cfg, n), f - 1, g - 1);
    }
  }

  lemma {:induction false} DenoteAllMonotone(cfg: Config, ns: seq<Node>, f: nat, g: nat)
    requires f <= g
    requires var ds := DenoteAll(cfg, ns, f); AllDefined(ds) || FirstBad(ds) != Deeper
    ensures var ds, es := DenoteAll(cfg, ns, f), DenoteAll(cfg, ns, g);
      if AllDefined(ds) then es == ds else !AllDefined(es) && FirstBad(es) == FirstBad(ds)
    decreases f, 1 + |ns|
  {
    hide PlanOf, Kids, BuildTree;
    if ns != [] {
      var ds, es := DenoteAll(cfg, ns, f), DenoteAll(cfg, ns, g);
      assert ds[0] == Denote(cfg, ns[0], f) && ds[1..] == DenoteAll(cfg, ns[1..], f);
      assert es[0] == Denote(cfg, ns[0], g) && es[1..] == DenoteAll(cfg, ns[1..], g);
      DenoteMonotone(cfg, ns[0], f, g);
      if ds[0].Defined? {
        assert AllDefined(ds) <==> AllDefined(ds[1..]);
        assert AllDefined(es) <==> AllDefined(es[1..]);
        DenoteAllMonotone(cfg, ns[1..], f, g);
      }
    }
  }

  /** Depth measured on bindings alone, whatever is requested of them. */
  function SiteRequests(cfg: Config, s: Site): seq<Request> {
    match s
    case NoBinding => []
    case AtClass(spec) =>
      if spec in cfg.classes && cfg.classes[spec].Injectable? then cfg.classes[spec].ctor else []
    case AtKey(key) =>
      if key !in cfg.table then []
      else match cfg.table[key]
        case BindToType(_, dest) => [dest]
        case BindToProvider(_, _, args) => args
        case Singleton(ty, _) => [UnScopedRequest(ty)]
        case BindToCtor(_, args) => args
        case _ => []
  }

  lemma KidsOfSite(cfg: Config, n: Node)
    requires !PlanAt(cfg, n).Stop?
    ensures SubRequests(PlanAt(cfg, n)) == SiteRequests(cfg, SiteOf(cfg, n.req))
  {
  }

  predicate Shallow(cfg: Config, s: Site, f: nat)
    decreases f
  {
    && f > 0
    && var rs := SiteRequests(cfg, s);
       forall i :: 0 <= i < |rs| ==> Shallow(cfg, SiteOf(cfg, rs[i]), f - 1)
  }

  lemma {:induction false} DefinedIsShallow(cfg: Config, n: Node, f: nat)
    requires Denote(cfg, n, f).Defined?
    ensures Shallow(cfg, SiteOf(cfg, n.req), f)
    decreases f
  {
    hide PlanOf;
    KidsOfSite(cfg, n);
    var kids := Kids(cfg, n);
    var rs := SiteRequests(cfg, SiteOf(cfg, n.req));
    forall i | 0 <= i < |rs| ensures Shallow(cfg, SiteOf(cfg, rs[i]), f - 1) {
      DefinedKid(cfg, n, f, i);
      DefinedIsShallow(cfg, kids[i], f - 1);
    }
  }

  lemma DefinedKid(cfg: Config, n: Node, f: nat, i: nat)
    requires Denote(cfg, n, f).Defined? && i < |Kids(cfg, n)|
    ensures f > 0 && !PlanAt(cfg, n).Stop?
    ensures Denote(cfg, Kids(cfg, n)[i], f - 1).Defined?
  {
    hide PlanOf, Kids, BuildTree;
    DenoteAllAt(cfg, Kids(cfg, n), f - 1, i);
  }

  lemma {:induction false} ShallowAlong(cfg: Config, p: seq<Node>, f: nat)
    requires IsPath(cfg, p) && Shallow(cfg, SiteOf(cfg, p[0].req), f)
    ensures |p| <= f && Shallow(cfg, SiteOf(cfg, p[|p|-1].req), f + 1 - |p|)
    decreases |p|
  {
    hide PlanOf;
    if |p| > 1 {
      var q := p[..|p|-1];
      assert IsPath(cfg, q) by {
        forall i | 0 < i < |q| ensures q[i] in Kids(cfg, q[i-1]) { assert p[i] in Kids(cfg, p[i-1]); }
      }
      ShallowAlong(cfg, q, f);
      var n := q[|q|-1];
      assert p[|q|] in Kids(cfg, p[|q|-1]);
      KidsOfSite(cfg, n);
    }
  }

  /** A cycle of bindings is deeper than any fuel. */
  lemma {:induction false} LoopIsNotShallow(cfg: Config, p: seq<Node>, f: nat)
    requires IsPath(cfg, p) && |p| > 1
    requires SiteOf(cfg, p[0].req) == SiteOf(cfg, p[|p|-1].req)
    ensures !Shallow(cfg, SiteOf(cfg, p[0].req), f)
    decreases f
  {
    if Shallow(cfg, SiteOf(cfg, p[0].req), f) {
      ShallowAlong(cfg, p, f);
      LoopIsNotShallow(cfg, p, f + 1 - |p|);
    }
  }

  lemma SubPath(cfg: Config, p: seq<Node>, i: nat, j: nat)
    requires IsPath(cfg, p) && i < j <= |p|
    ensures IsPath(cfg, p[i..j])
  {
    var q := p[i..j];
    forall k | 0 < k < |q| ensures q[k] in Kids(cfg, q[k-1]) {
      assert p[i+k] in Kids(cfg, p[i+k-1]);
    }
  }

  lemma DefinedIsAcyclic(cfg: Config, n: Node, f: nat)
    requires Denote(cfg, n, f).Defined?
    ensures Acyclic(cfg, n)
  {
    hide PlanOf, Denote, Shallow, SiteOf;
    forall p: seq<Node> | IsPath(cfg, p) && p[0] == n ensures NoRepeat(cfg, p) {
      forall i, j | 0 <= i < j < |p| ensures SiteOf(cfg, p[i].req) != SiteOf(cfg, p[j].req) {
        if SiteOf(cfg, p[i].req) == SiteOf(cfg, p[j].req) {
          DefinedIsShallow(cfg, n, f);
          SubPath(cfg, p, 0, i + 1);
          ShallowAlong(cfg, p[..i+1], f);
          SubPath(cfg, p, i, j + 1);
          LoopIsNotShallow(cfg, p[i..j+1], f - i);
        }
      }
    }
  }

  lemma {:induction false} DefinedAlong(cfg: Config, p: seq<Node>, f: nat)
    requires IsPath(cfg, p) && Denote(cfg, p[0], f).Defined?
    ensures |p| <= f && Denote(cfg, p[|p|-1], f + 1 - |p|).Defined?
    decreases |p|
  {
    hide PlanOf, Kids;
    if |p| > 1 {
      SubPath(cfg, p, 0, |p| - 1);
      var q := p[..|p|-1];
      DefinedAlong(cfg, q, f);
      var n := q[|q|-1];
      assert p[|q|] in Kids(cfg, p[|q|-1]);
      var i :| 0 <= i < |Kids(cfg, n)| && Kids(cfg, n)[i] == p[|p|-1];
      DefinedKid(cfg, n, f + 1 - |q|, i);
    }
  }

  lemma DefinedIsClean(cfg: Config, n: Node, f: nat)
    requires Denote(cfg, n, f).Defined?
    ensures Clean(cfg, n)
  {
    hide PlanOf, Kids, BuildTree;
    forall m | Reaches(cfg, n, m) ensures !PlanAt(cfg, m).Stop? {
      var p :| PathBetween(cfg, p, n, m);
      DefinedAlong(cfg, p, f);
    }
  }

  // ---- Counting bindings ----

  ghost function Sites(cfg: Config): set<Site> {
    (set k | k in cfg.table :: AtKey(k)) + (set s | s in cfg.classes :: AtClass(s)) + {NoBinding}
  }

  lemma {:induction false} KeySites(keys: set<Key>)
    ensures |set k | k in keys :: AtKey(k)| == |keys|
  {
    var sites := set k | k in keys :: AtKey(k);
    if keys != {} {
      var k :| k in keys;
      var rest := set j | j in keys - {k} :: AtKey(j);
      assert sites == rest + {AtKey(k)};
      KeySites(keys - {k});
    }
  }

  lemma {:induction false} ClassSites(specs: set<Type>)
    ensures |set s | s in specs :: AtClass(s)| == |specs|
  {
    var sites := set s | s in specs :: AtClass(s);
    if specs != {} {
      var s :| s in specs;
      var rest := set t | t in specs - {s} :: AtClass(t);
      assert sites == rest + {AtClass(s)};
      ClassSites(specs - {s});
    }
  }

  lemma CountSites(cfg: Config)
    ensures |Sites(cfg)| <= Limit(cfg)
  {
    KeySites(cfg.table.Keys);
    ClassSites(cfg.classes.Keys);
    assert (set k | k in cfg.table :: AtKey(k)) == (set k | k in cfg.table.Keys :: AtKey(k));
    assert (set s | s in cfg.classes :: AtClass(s)) == (set s | s in cfg.classes.Keys :: AtClass(s));
  }

  /** The pigeonhole step: a path without a repeat is at most as long as there are bindings. */
  lemma {:induction false} NoRepeatIsShort(cfg: Config, p: seq<Node>)
    requires NoRepeat(cfg, p)
    ensures |p| <= Limit(cfg)
  {
    var sites := seq(|p|, i requires 0 <= i < |p| => SiteOf(cfg, p[i].req));
    assert forall i, j :: 0 <= i < j < |sites| ==> sites[i] != sites[j];
    forall s | s in sites ensures s in Sites(cfg) {
      var i :| 0 <= i < |sites| && sites[i] == s;
      assert s == SiteOf(cfg, p[i].req);
    }
    DistinctFit(sites, Sites(cfg));
    CountSites(cfg);
  }

  lemma {:induction false} DistinctFit<T>(xs: seq<T>, s: set<T>)
    requires forall i, j :: 0 <= i < j < |xs| ==> xs[i] != xs[j]
    requires forall x :: x in xs ==> x in s
    ensures |xs| <= |s|
    decreases xs
  {
    if |xs| > 0 {
      DistinctFit(xs[1..], s - {xs[0]});
    }
  }

  // ---- Success, exactly ----

  /** No chain of sub-requests is longer than `f`. */
  predicate DepthAtMost(cfg: Config, n: Node, f: nat)
    decreases f
  {
    f > 0 && forall i :: 0 <= i < |Kids(cfg, n)| ==> DepthAtMost(cfg, Kids(cfg, n)[i], f - 1)
  }

  /** On an acyclic graph, the depth is at most the number of bindings plus one. */
  lemma {:induction false} AcyclicDepth(cfg: Config, root: Node, p: seq<Node>)
    requires Acyclic(cfg, root)
    requires IsPath(cfg, p) && p[0] == root
    ensures |p| <= Limit(cfg) && DepthAtMost(cfg, p[|p|-1], Limit(cfg) + 1 - |p|)
    decreases Limit(cfg) - |p|
  {
    hide PlanOf, Kids, SiteOf;
    NoRepeatIsShort(cfg, p);
    var kids := Kids(cfg, p[|p|-1]);
    forall i | 0 <= i < |kids| ensures DepthAtMost(cfg, kids[i], Limit(cfg) - |p|) {
      ExtendPath(cfg, p, i);
      AcyclicDepth(cfg, root, p + [kids[i]]);
    }
  }

  lemma {:induction false} DepthSuffices(cfg: Config, n: Node, f: nat)
    requires DepthAtMost(cfg, n, f)
    ensures Denote(cfg, n, f) != Deeper
    decreases f
  {
    hide PlanOf, Kids, BuildTree;
    var kids := Kids(cfg, n);
    var ds := DenoteAll(cfg, kids, f - 1);
    forall i | 0 <= i < |ds| ensures ds[i] != Deeper {
      DenoteAllAt(cfg, kids, f - 1, i);
      DepthSuffices(cfg, kids[i], f - 1);
    }
  }

  lemma ExtendPath(cfg: Config, p: seq<Node>, i: nat)
    requires IsPath(cfg, p) && i < |Kids(cfg, p[|p|-1])|
    ensures IsPath(cfg, p + [Kids(cfg, p[|p|-1])[i]])
  {
    var q := p + [Kids(cfg, p[|p|-1])[i]];
    forall k | 0 < k < |q| ensures q[k] in Kids(cfg, q[k-1]) {
      if k < |p| { assert p[k] in Kids(cfg, p[k-1]); }
    }
  }

  /** Fatal outcomes always come from a request that cannot be answered. */
  lemma {:induction false} UndefinedIsReachable(cfg: Config, n: Node, f: nat)
    requires Denote(cfg, n, f).Undefined?
    ensures exists m :: Reaches(cfg, n, m) && PlanAt(cfg, m) == Stop(Denote(cfg, n, f).why)
    decreases f
  {
    hide PlanOf, Kids, BuildTree;
    if PlanAt(cfg, n).Stop? {
      ReachesSelf(cfg, n);
    } else {
      var kids := Kids(cfg, n);
      var ds := DenoteAll(cfg, kids, f - 1);
      assert Denote(cfg, n, f) == FirstBad(ds);
      var i: nat :| i < |ds| && ds[i] == FirstBad(ds);
      DenoteAllAt(cfg, kids, f - 1, i);
      UndefinedIsReachable(cfg, kids[i], f - 1);
      var m :| Reaches(cfg, kids[i], m) && PlanAt(cfg, m) == Stop(Denote(cfg, n, f).why);
      ReachesThroughKid(cfg, n, i, m);
    }
  }

  /** Resolution succeeds at some depth exactly when every request it reaches can be answered
      and no binding depends on itself. Without a cycle, the number of bindings bounds the
      depth, and an unanswerable request in reach always ends in a failure. */
  lemma SuccessExactly(cfg: Config, n: Node)
    ensures (exists f: nat :: Denote(cfg, n, f).Defined?) <==> Clean(cfg, n) && Acyclic(cfg, n)
    ensures Acyclic(cfg, n) ==> DepthAtMost(cfg, n, Limit(cfg))
    ensures Acyclic(cfg, n) ==>
      if Clean(cfg, n) then Denote(cfg, n, Limit(cfg)).Defined? else Denote(cfg, n, Limit(cfg)).Undefined?
  {
    hide PlanOf, Denote, Kids, DepthAtMost;
    if f: nat :| Denote(cfg, n, f).Defined? {
      DefinedIsClean(cfg, n, f);
      DefinedIsAcyclic(cfg, n, f);
    }
    if Acyclic(cfg, n) {
      AcyclicDepth(cfg, n, [n]);
      DepthSuffices(cfg, n, Limit(cfg));
      if Denote(cfg, n, Limit(cfg)).Undefined? {
        UndefinedIsReachable(cfg, n, Limit(cfg));
      }
    }
  }

  /** With a cycle but no fatal request in reach, no depth is ever enough. */
  lemma CycleNeverEnds(cfg: Config, n: Node, f: nat)
    requires Clean(cfg, n) && !Acyclic(cfg, n)
    ensures Denote(cfg, n, f) == Deeper
  {
    if Denote(cfg, n, f).Defined? {
      DefinedIsAcyclic(cfg, n, f);
    } else if Denote(cfg, n, f).Undefined? {
      UndefinedIsReachable(cfg, n, f);
    }
  }

  // ---- Canonical denotation ----

  /** The denotation of a request; nothing is lost by fixing the depth. */
  function Den(cfg: Config, n: Node): Denotation {
    Denote(cfg, n, Limit(cfg))
  }

  lemma DenIsCanonical(cfg: Config, n: Node, f: nat)
    requires Denote(cfg, n, f).Defined?
    ensures Den(cfg, n) == Denote(cfg, n, f)
  {
    hide PlanOf, Denote;
    SuccessExactly(cfg, n);
    if f <= Limit(cfg) {
      DenoteMonotone(cfg, n, f, Limit(cfg));
    } else {
      DenoteMonotone(cfg, n, Limit(cfg), f);
    }
  }

  /** The denotation satisfies its defining equation without any fuel. */
  lemma DenEquation(cfg: Config, n: Node)
    ensures Den(cfg, n).Defined? ==> !PlanAt(cfg, n).Stop? && AllDefined(DenAll(cfg, Kids(cfg, n)))
    ensures !PlanAt(cfg, n).Stop? && AllDefined(DenAll(cfg, Kids(cfg, n))) ==>
      Den(cfg, n) == Defined(BuildTree(PlanAt(cfg, n), TreesOf(DenAll(cfg, Kids(cfg, n)))))
  {
    hide PlanOf, Kids, BuildTree;
    var kids := Kids(cfg, n);
    if Den(cfg, n).Defined? {
      forall i | 0 <= i < |kids| ensures Den(cfg, kids[i]).Defined? {
        DefinedKid(cfg, n, Limit(cfg), i);
        DenIsCanonical(cfg, kids[i], Limit(cfg) - 1);
      }
      forall i | 0 <= i < |kids| ensures DenAll(cfg, kids)[i].Defined? {
        DenoteAllAt(cfg, kids, Limit(cfg), i);
      }
    }
    if !PlanAt(cfg, n).Stop? && AllDefined(DenAll(cfg, kids)) {
      DenIsCanonical(cfg, n, Limit(cfg) + 1);
    }
  }

  function DenAll(cfg: Config, ns: seq<Node>): seq<Denotation> {
    DenoteAll(cfg, ns, Limit(cfg))
  }

  // ---- Reachability ----

  lemma ReachesSelf(cfg: Config, n: Node)
    ensures Reaches(cfg, n, n)
  {
    assert PathBetween(cfg, [n], n, n);
  }

  lemma ReachesThroughKid(cfg: Config, n: Node, i: nat, m: Node)
    requires i < |Kids(cfg, n)| && Reaches(cfg, Kids(cfg, n)[i], m)
    ensures Reaches(cfg, n, m)
  {
    var p :| PathBetween(cfg, p, Kids(cfg, n)[i], m);
    var q := [n] + p;
    forall k | 0 < k < |q| ensures q[k] in Kids(cfg, q[k-1]) {
      if k > 1 { assert p[k-1] in Kids(cfg, p[k-2]); }
    }
    assert PathBetween(cfg, q, n, m);
  }

  lemma ReachesInversion(cfg: Config, n: Node, m: Node)
    requires Reaches(cfg, n, m)
    ensures n == m || exists i :: 0 <= i < |Kids(cfg, n)| && Reaches(cfg, Kids(cfg, n)[i], m)
  {
    var p :| PathBetween(cfg, p, n, m);
    if |p| > 1 {
      assert p[1] in Kids(cfg, p[0]);
      var i :| 0 <= i < |Kids(cfg, n)| && Kids(cfg, n)[i] == p[1];
      SubPath(cfg, p, 1, |p|);
      assert PathBetween(cfg, p[1..], p[1], m);
    }
  }

  /** The singleton bound under `k` is needed, at any depth, to answer `n`. */
  ghost predicate Needs(cfg: Config, n: Node, k: Key) {
    exists m :: Reaches(cfg, n, m) && PlanAt(cfg, m).Once? && PlanAt(cfg, m).key == k
  }

  lemma NeedsUnfolds(cfg: Config, n: Node, k: Key)
    ensures Needs(cfg, n, k) <==>
      || (PlanAt(cfg, n).Once? && PlanAt(cfg, n).key == k)
      || exists i :: 0 <= i < |Kids(cfg, n)| && Needs(cfg, Kids(cfg, n)[i], k)
  {
    hide PlanOf, Kids;
    var kids := Kids(cfg, n);
    if PlanAt(cfg, n).Once? && PlanAt(cfg, n).key == k { ReachesSelf(cfg, n); }
    if i :| 0 <= i < |kids| && Needs(cfg, kids[i], k) {
      var m :| Reaches(cfg, kids[i], m) && PlanAt(cfg, m).Once? && PlanAt(cfg, m).key == k;
      ReachesThroughKid(cfg, n, i, m);
    }
    if Needs(cfg, n, k) {
      var m :| Reaches(cfg, n, m) && PlanAt(cfg, m).Once? && PlanAt(cfg, m).key == k;
      ReachesInversion(cfg, n, m);
    }
  }

  /** The node at which the singleton bound under `k` creates its object. */
  function InnerNode(cfg: Config, k: Key): Node
    requires k in cfg.table && cfg.table[k].Singleton?
  {
    Node([], UnScopedRequest(cfg.table[k].ty))
  }

  lemma OnceIsSingleton(cfg: Config, n: Node)
    requires PlanAt(cfg, n).Once?
    ensures PlanAt(cfg, n).key in cfg.table && cfg.table[PlanAt(cfg, n).key].Singleton?
    ensures Kids(cfg, n) == [InnerNode(cfg, PlanAt(cfg, n).key)]
  {
    var k := PlanAt(cfg, n).key;
    assert SubRequests(PlanAt(cfg, n)) == [UnScopedRequest(cfg.table[k].ty)];
    assert |Kids(cfg, n)| == 1;
    assert SubFormals(PlanAt(cfg, n), n.formals) == [];
    assert Kids(cfg, n)[0] == Node([], UnScopedRequest(cfg.table[k].ty));
    assert InnerNode(cfg, k) == Node([], UnScopedRequest(cfg.table[k].ty));
  }

  /** A singleton whose object can be created does not need itself: the once flag, set only
      after creation, is never found unset by a request from inside the creation. */
  lemma CreationIsNotReentrant(cfg: Config, k: Key)
    requires k in cfg.table && cfg.table[k].Singleton?
    requires Den(cfg, InnerNode(cfg, k)).Defined?
    ensures !Needs(cfg, InnerNode(cfg, k), k)
  {
    var root := InnerNode(cfg, k);
    if Needs(cfg, root, k) {
      var m :| Reaches(cfg, root, m) && PlanAt(cfg, m).Once? && PlanAt(cfg, m).key == k;
      OnceIsSingleton(cfg, m);
      var p :| PathBetween(cfg, p, root, m);
      ExtendPath(cfg, p, 0);
      var q := p + [root];
      assert SiteOf(cfg, q[0].req) == SiteOf(cfg, q[|p|].req);
      assert IsPath(cfg, q) && q[0] == root && !NoRepeat(cfg, q);
      DefinedIsAcyclic(cfg, root, Limit(cfg));
    }
  }
}
