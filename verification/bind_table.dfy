/** The bind table as an object: it maps keys to entries and owns every entry handed to it. */
module BindTables {
  import opened Options
  import opened Bindings
  import opened Modules
  import opened Resolver

  /** What can be seen of a teardown. Deleting an entry runs its user action, frees its
      provider or frees the context. */
  datatype Event = SingletonDeleted(v: Value) | EntryDeleted(o: Owned)

  function EntriesBackwards(owned: seq<Owned>): (log: seq<Event>)
    ensures |log| == |owned|
  {
    seq(|owned|, i requires 0 <= i < |owned| => EntryDeleted(owned[|owned| - 1 - i]))
  }

  /** One entry handed to the table: under a key by `AddEntry`, or only to be deleted later by
      `AddToCleanupList`. */
  datatype Handed = Handed(tid: Option<Key>, o: Owned)

  /** The `i`-th entry handed over is the first one under this key. */
  predicate FirstUnder(handed: seq<Handed>, i: nat, tid: Key) {
    && i < |handed| && handed[i].tid == Some(tid)
    && forall j :: 0 <= j < i ==> handed[j].tid != Some(tid)
  }

  predicate Under(handed: seq<Handed>, tid: Key) {
    exists i :: 0 <= i < |handed| && handed[i].tid == Some(tid)
  }

  function EntriesOf(handed: seq<Handed>): (owned: seq<Owned>)
    ensures |owned| == |handed|
  {
    seq(|handed|, i requires 0 <= i < |handed| => handed[i].o)
  }

  /** Entries are fresh objects: each is a new address. */
  predicate Fresh(handed: seq<Handed>) {
    forall i :: 0 <= i < |handed| ==> handed[i].o.serial == i
  }

  class BindTable {
    var bindMap: map<Key, Owned>
    var cleanupList: seq<Owned>
    ghost var history: seq<Handed>

    /** The map holds the first entry of each key, and the list every entry handed over. */
    ghost predicate Valid()
      reads this
    {
      && Fresh(history) && cleanupList == EntriesOf(history)
      && (forall k :: k in bindMap <==> Under(history, k))
      && (forall i: nat, k :: FirstUnder(history, i, k) ==> k in bindMap && bindMap[k] == history[i].o)
    }

    constructor ()
      ensures Valid() && history == [] && bindMap == map[] && cleanupList == []
    {
      bindMap, cleanupList, history := map[], [], [];
    }

    /** The first entry ever added under the key, whatever was added later; none if there was
        no such call. */
    method FindEntry(tid: Key) returns (o: Option<Owned>)
      requires Valid()
      ensures match o
        case None => !Under(history, tid)
        case Some(e) => exists i: nat :: FirstUnder(history, i, tid) && history[i].o == e
    {
      if tid !in bindMap {
        return None;
      }
      ghost var i := FirstHanded(history, tid);
      o := Some(bindMap[tid]);
    }

    /** The entry is owned even if the map already has one for the key. */
    method AddEntry(tid: Key, o: Owned) returns (added: bool)
      requires Valid() && o.serial == |cleanupList|
      modifies this
      ensures Valid() && history == old(history) + [Handed(Some(tid), o)]
      ensures cleanupList == old(cleanupList) + [o]
      ensures added <==> !Under(old(history), tid)
      ensures bindMap == if tid in old(bindMap) then old(bindMap) else old(bindMap)[tid := o]
    {
      HistoryGrows(history, Handed(Some(tid), o));
      cleanupList := cleanupList + [o];
      history := history + [Handed(Some(tid), o)];
      added := tid !in bindMap;
      if added {
        bindMap := bindMap[tid := o];
      }
    }

    method AddToCleanupList(o: Owned)
      requires Valid() && o.serial == |cleanupList|
      modifies this`cleanupList, this`history
      ensures Valid() && history == old(history) + [Handed(None, o)]
      ensures cleanupList == old(cleanupList) + [o]
    {
      HistoryGrows(history, Handed(None, o));
      cleanupList := cleanupList + [o];
      history := history + [Handed(None, o)];
    }

    /** Every mapped entry is in the ownership list. */
    lemma MappedIsOwned()
      requires Valid()
      ensures forall k :: k in bindMap ==> bindMap[k] in cleanupList
    {
      forall k | k in bindMap ensures bindMap[k] in cleanupList {
        var i := FirstHanded(history, k);
        assert cleanupList[i] == bindMap[k];
      }
    }

    /** The destructor of any table whose entries have user actions: every entry handed over
        is deleted exactly once, in reverse order, those that the map rejected included. */
    method Destroy() returns (log: seq<Event>)
      requires Valid() && forall i :: 0 <= i < |cleanupList| ==> IsUserAction(cleanupList[i].onDelete)
      ensures log == EntriesBackwards(EntriesOf(history)) && NoDuplicates(log)
      ensures forall i :: 0 <= i < |history| ==> EntryDeleted(history[i].o) in log
      ensures forall k :: k in bindMap ==> EntryDeleted(bindMap[k]) in log
    {
      log := [];
      for i := |cleanupList| downto 0
        invariant log == EntriesBackwards(cleanupList[i..])
      {
        log := log + [EntryDeleted(cleanupList[i])];
      }
      assert cleanupList[0..] == cleanupList;
      EachDeletedOnce(history);
      MappedIsOwned();
    }
  }

  lemma {:induction false} FirstHanded(handed: seq<Handed>, tid: Key) returns (i: nat)
    requires Under(handed, tid)
    ensures FirstUnder(handed, i, tid)
  {
    i :| i < |handed| && handed[i].tid == Some(tid);
    while exists j :: 0 <= j < i && handed[j].tid == Some(tid)
      invariant i < |handed| && handed[i].tid == Some(tid)
      decreases i
    {
      var j: nat :| j < i && handed[j].tid == Some(tid);
      i := j;
    }
  }

  lemma HistoryGrows(handed: seq<Handed>, one: Handed)
    ensures var more := handed + [one];
      && EntriesOf(more) == EntriesOf(handed) + [one.o]
      && (forall k :: Under(more, k) <==> Under(handed, k) || one.tid == Some(k))
      && (forall i: nat, k :: FirstUnder(more, i, k) <==>
            FirstUnder(handed, i, k) || (i == |handed| && one.tid == Some(k) && !Under(handed, k)))
  {
    var more := handed + [one];
    assert forall i :: 0 <= i < |handed| ==> more[i] == handed[i];
    forall k ensures Under(more, k) <==> Under(handed, k) || one.tid == Some(k) {
      if one.tid == Some(k) { assert more[|handed|].tid == Some(k); }
      if i :| 0 <= i < |handed| && handed[i].tid == Some(k) { assert more[i].tid == Some(k); }
    }
  }

  lemma EachDeletedOnce(handed: seq<Handed>)
    requires Fresh(handed)
    ensures NoDuplicates(EntriesBackwards(EntriesOf(handed)))
    ensures forall i :: 0 <= i < |handed| ==> EntryDeleted(handed[i].o) in EntriesBackwards(EntriesOf(handed))
  {
    var log := EntriesBackwards(EntriesOf(handed));
    var n := |handed|;
    forall i, j | 0 <= i < j < n ensures log[i] != log[j] {
      assert handed[n-1-i].o.serial != handed[n-1-j].o.serial;
    }
    forall i | 0 <= i < n ensures EntryDeleted(handed[i].o) in log {
      assert log[n-1-i] == EntryDeleted(handed[i].o);
    }
  }

  /** The life of a table: any sequence of entries is handed over, then it is destroyed. An
      addition succeeds exactly when it is the first under its key; either way the entry is
      deleted once, in reverse order. */
  method LiveAndDie(handed: seq<Handed>) returns (added: seq<bool>, log: seq<Event>)
    requires Fresh(handed) && forall i :: 0 <= i < |handed| ==> IsUserAction(handed[i].o.onDelete)
    ensures |added| == |handed|
    ensures forall i, k :: 0 <= i < |handed| && handed[i].tid == Some(k) ==> (added[i] <==> FirstUnder(handed, i, k))
    ensures log == EntriesBackwards(EntriesOf(handed)) && NoDuplicates(log)
  {
    var table := new BindTable();
    added := [];
    for i := 0 to |handed|
      invariant fresh(table) && table.Valid() && table.history == handed[..i] && |added| == i
      invariant forall j, k :: 0 <= j < i && handed[j].tid == Some(k) ==> (added[j] <==> FirstUnder(handed, j, k))
    {
      var o := handed[i].o;
      var ok := false;
      match handed[i].tid {
        case Some(tid) => ok := table.AddEntry(tid, o);
        case None => table.AddToCleanupList(o);
      }
      added := added + [ok];
      assert handed[..i+1] == handed[..i] + [handed[i]];
    }
    assert handed[..|handed|] == handed;
    log := table.Destroy();
  }
}
