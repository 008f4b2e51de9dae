/** The arguments of one factory call, searched from the front. */
module LocalContexts {
  import opened Options
  import opened Bindings
  import opened ResolutionGraph
  import opened Resolver

  /** A factory argument: its key and type, and the entry that holds its value. */
  datatype Argument = Argument(formal: Formal, value: Value)

  /** The source's array of arguments is never written, so it is a constant sequence here. */
  class LocalContext {
    const args: seq<Argument>

    constructor (args: seq<Argument>)
      ensures this.args == args
    {
      this.args := args;
    }

    function Formals(): (fs: seq<Formal>)
      ensures |fs| == |args|
    {
      seq(|args|, i requires 0 <= i < |args| => args[i].formal)
    }

    function Values(): (vs: seq<Value>)
      ensures |vs| == |args|
    {
      seq(|args|, i requires 0 <= i < |args| => args[i].value)
    }

    /** A request in this context, as a node of the binding graph. */
    function NodeOf(req: Request): (n: Node)
      ensures |n.formals| == |Values()|
    {
      Node(Formals(), req)
    }

    function NodesOf(rs: seq<Request>): (ns: seq<Node>)
      ensures |ns| == |rs| && SameShape(ns, Values())
    {
      seq(|rs|, i requires 0 <= i < |rs| => NodeOf(rs[i]))
    }

    /** The first slot with this key, or none. */
    method FindEntry(tid: Key) returns (slot: Option<nat>)
      ensures match slot
        case None => forall j :: 0 <= j < |args| ==> args[j].formal.key != tid
        case Some(i) => i < |args| && args[i].formal.key == tid && forall j :: 0 <= j < i ==> args[j].formal.key != tid
    {
      for i := 0 to |args|
        invariant forall j :: 0 <= j < i ==> args[j].formal.key != tid
      {
        if args[i].formal.key == tid {
          return Some(i);
        }
      }
      return None;
    }
  }

  /** What a scan finds is the slot of the pure model. */
  lemma SlotIs(formals: seq<Formal>, key: Key, i: nat)
    requires i <= |formals| && forall j :: 0 <= j < i ==> formals[j].key != key
    requires i < |formals| ==> formals[i].key == key
    ensures FirstSlot(formals, key) == i
  {
    var j := FirstSlot(formals, key);
    assert j <= i;
  }
}
