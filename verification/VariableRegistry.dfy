/**
 Shared variables with reference counts, and the index that finds the variables of a CAN message
 (src/math/service/variable_registry.cpp:45-80, 113-145).
 */
module VariableRegistry {
  import opened CanTypes

  /** What a factory makes: a variable fed by a CAN signal, or any other variable. */
  datatype Source = CanSignal(messageId: nat, signalName: string) | Other

  class Variable {
    const source: Source
    var value: real

    constructor (source: Source)
      ensures this.source == source && value == 0.0
    {
      this.source := source;
      value := 0.0;
    }
  }

  datatype Entry = Entry(variable: Variable, refCount: nat)

  // ----- Reference counts over a history

  datatype Operation = Acquire(key: string) | Release(key: string)

  function Weight(op: Operation, key: string): int {
    if op.key != key then 0 else if op.Acquire? then 1 else -1
  }

  /** The references to a key: releasing a key that nobody holds does nothing. */
  function Count(log: seq<Operation>, key: string): nat {
    if log == [] then 0
    else
      var before := Count(log[..|log| - 1], key);
      var w := Weight(log[|log| - 1], key);
      if before + w < 0 then 0 else before + w
  }

  /** Acquires minus releases. */
  function Net(log: seq<Operation>, key: string): int {
    if log == [] then 0 else Net(log[..|log| - 1], key) + Weight(log[|log| - 1], key)
  }

  /** No prefix of the history releases the key more often than it acquires it. */
  predicate NeverOverReleased(log: seq<Operation>, key: string) {
    forall n | 0 <= n <= |log| :: Net(log[..n], key) >= 0
  }

  /** The count is at least the difference, and exceeds it by the deepest deficit of any prefix. */
  lemma {:induction false} CountIsNetAboveDeficit(log: seq<Operation>, key: string)
    ensures forall n | 0 <= n <= |log| :: Count(log, key) >= Net(log, key) - Net(log[..n], key)
    ensures exists n | 0 <= n <= |log| ::
              Count(log, key) == Net(log, key) - Net(log[..n], key) && Net(log[..n], key) <= 0
    decreases |log|
  {
    hide Weight;
    if log == [] {
      assert log[..0] == log;
    } else {
      var init, last := log[..|log| - 1], log[|log| - 1];
      CountIsNetAboveDeficit(init, key);
      forall n | 0 <= n < |log|
        ensures log[..n] == init[..n]
      {
      }
      assert log[..|log|] == log;
      var n :| 0 <= n <= |init| && Count(init, key) == Net(init, key) - Net(init[..n], key) && Net(init[..n], key) <= 0;
      assert init[..n] == log[..n];
      if Count(init, key) + Weight(last, key) < 0 {
        DeficitAtEnd(log, key);
      } else {
        assert Count(log, key) == Net(log, key) - Net(log[..n], key);
      }
      forall m | 0 <= m <= |log|
        ensures Count(log, key) >= Net(log, key) - Net(log[..m], key)
      {
        if m < |log| { assert log[..m] == init[..m]; }
      }
    }
  }

  /** A release that is ignored leaves the count at zero and the difference at its lowest. */
  lemma DeficitAtEnd(log: seq<Operation>, key: string)
    requires log != [] && Count(log[..|log| - 1], key) + Weight(log[|log| - 1], key) < 0
    requires Count(log[..|log| - 1], key) >= Net(log[..|log| - 1], key)
    ensures Count(log, key) == Net(log, key) - Net(log[..|log|], key) && Net(log[..|log|], key) <= 0
  {
    assert log[..|log|] == log;
  }

  /** The count is acquires minus releases exactly if no release came too early. */
  lemma CountIsNet(log: seq<Operation>, key: string)
    ensures Count(log, key) == Net(log, key) <==> NeverOverReleased(log, key)
  {
    hide Count, Net;
    CountIsNetAboveDeficit(log, key);
    if NeverOverReleased(log, key) {
      assert log[..0] == [];
      assert Net(log[..0], key) == 0 by { NetOfNothing(key); }
    }
  }

  lemma NetOfNothing(key: string)
    ensures Net([], key) == 0
  {
  }

  /** An early release makes a key live although it was acquired no more often than released. */
  lemma EarlyReleaseIsForgotten(key: string)
    ensures var log := [Release(key), Acquire(key)]; Net(log, key) == 0 && Count(log, key) == 1
  {
    var log := [Release(key), Acquire(key)];
    assert log[..1] == [Release(key)];
    var none: seq<Operation> := [];
    assert [Release(key)][..0] == none;
    assert Net([Release(key)], key) == -1 && Count([Release(key)], key) == 0;
  }

  // ----- The index

  /** The variables of the index under an identifier. */
  function Listed(index: map<nat, seq<Variable>>, id: nat): seq<Variable> {
    if id in index then index[id] else []
  }

  predicate Distinct(vs: seq<Variable>) {
    forall i, j | 0 <= i < j < |vs| :: vs[i] != vs[j]
  }

  /** The variable of a live entry is fed by message `id`. */
  predicate Feeds(entries: map<string, Entry>, key: string, id: nat)
    requires key in entries
  {
    var source := entries[key].variable.source;
    source.CanSignal? && source.messageId == id
  }

  /** The index lists, for the given keys, every CAN variable exactly once under its identifier. */
  ghost predicate Indexes(index: map<nat, seq<Variable>>, entries: map<string, Entry>, keys: set<string>)
    requires keys <= entries.Keys
  {
    forall id ::
      && Distinct(Listed(index, id))
      && (forall key | key in keys && Feeds(entries, key, id) :: entries[key].variable in Listed(index, id))
      && (forall v | v in Listed(index, id) ::
            exists key | key in keys :: Feeds(entries, key, id) && entries[key].variable == v)
  }

  /** No two keys share a variable. */
  predicate Separate(entries: map<string, Entry>) {
    forall k, l | k in entries && l in entries && k != l :: entries[k].variable != entries[l].variable
  }

  lemma IndexStep(index: map<nat, seq<Variable>>, entries: map<string, Entry>, keys: set<string>, key: string)
    requires keys <= entries.Keys && key in entries && key !in keys && Separate(entries)
             && Indexes(index, entries, keys)
    ensures var v := entries[key].variable;
            Indexes(if v.source.CanSignal? then index[v.source.messageId := Listed(index, v.source.messageId) + [v]]
                    else index,
                    entries, keys + {key})
  {
    var v := entries[key].variable;
    var after := if v.source.CanSignal? then index[v.source.messageId := Listed(index, v.source.messageId) + [v]]
        else index;
    forall id
      ensures Distinct(Listed(after, id))
      ensures forall k | k in keys + {key} && Feeds(entries, k, id) :: entries[k].variable in Listed(after, id)
      ensures forall w | w in Listed(after, id) ::
                exists k | k in keys + {key} :: Feeds(entries, k, id) && entries[k].variable == w
    {
      var before := Listed(index, id);
      assert forall w | w in before :: exists k | k in keys :: Feeds(entries, k, id) && entries[k].variable == w;
      assert v !in before;
      if v.source.CanSignal? && v.source.messageId == id {
        assert Listed(after, id) == before + [v];
        assert Feeds(entries, key, id);
      } else {
        assert Listed(after, id) == before;
      }
    }
  }

  /** The value of a variable after a message, by looking at the variable alone. */
  function Updated(source: Source, value: real, message: DbcCanMessage): real {
    if source.CanSignal? && source.messageId == message.messageId
    then
      var v := FirstValueOf(message.signalValues, source.signalName);
      if v.Some? then v.value else value
    else value
  }

  /** What a message makes of a variable: the first value of its signal if the message feeds it, else nothing. */
  ghost predicate IsFed(source: Source, before: real, after: real, message: DbcCanMessage) {
    if && source.CanSignal? && source.messageId == message.messageId
       && !Unnamed(message.signalValues, source.signalName)
    then IsFirstValue(message.signalValues, source.signalName, after)
    else after == before
  }

  lemma UpdatedIsFed(source: Source, before: real, message: DbcCanMessage)
    ensures IsFed(source, before, Updated(source, before, message), message)
  {
    hide FirstValueOf, IsFirstValue, Unnamed;
    if source.CanSignal? {
      FirstValueByIndex(message.signalValues, source.signalName);
    }
  }

  class VariableRegistry {
    var entries: map<string, Entry>
    var canSignalMap: map<nat, seq<Variable>>
    ghost var log: seq<Operation>

    ghost predicate Valid()
      reads this
    {
      && (forall key :: key in entries <==> Count(log, key) > 0)
      && (forall key | key in entries :: entries[key].refCount == Count(log, key))
      && Separate(entries)
      && Indexes(canSignalMap, entries, entries.Keys)
    }

    ghost function Variables(): set<Variable>
      reads this
    {
      set key | key in entries :: entries[key].variable
    }

    constructor ()
      ensures Valid() && log == []
    {
      entries, canSignalMap, log := map[], map[], [];
    }

    /** The index is built anew, in whatever order the entries come. */
    method RebuildCanSignalMap()
      requires Separate(entries)
      modifies `canSignalMap
      ensures Indexes(canSignalMap, entries, entries.Keys)
    {
      hide Indexes, Separate, Listed;
      canSignalMap := map[];
      var remaining := entries.Keys;
      NothingIndexed(entries);
      while remaining != {}
        invariant remaining <= entries.Keys
        invariant Indexes(canSignalMap, entries, entries.Keys - remaining)
        decreases |remaining|
      {
        var key :| key in remaining;
        IndexStep(canSignalMap, entries, entries.Keys - remaining, key);
        assert entries.Keys - (remaining - {key}) == entries.Keys - remaining + {key};
        var variable := entries[key].variable;
        if variable.source.CanSignal? {
          canSignalMap := canSignalMap[variable.source.messageId := Listed(canSignalMap, variable.source.messageId)
                                       + [variable]];
        }
        remaining := remaining - {key};
      }
      assert entries.Keys - {} == entries.Keys;
    }

    /** The factory is used only if nobody holds the key. */
    method Acquire(key: string, factory: Source) returns (variable: Variable)
      requires Valid()
      modifies this
      ensures Valid() && log == old(log) + [Operation.Acquire(key)]
      ensures key in entries && entries[key].variable == variable
      ensures if key in old(entries) then entries.Keys == old(entries.Keys) && variable == old(entries)[key].variable
              else
                && entries.Keys == old(entries.Keys) + {key} && fresh(variable)
                && variable.source == factory && variable.value == 0.0
      ensures forall k | k in old(entries) && k != key :: entries[k] == old(entries)[k]
    {
      hide Indexes, Count;
      CountStep(log, Operation.Acquire(key));
      if key in entries {
        variable := entries[key].variable;
        ghost var before := entries;
        entries := entries[key := Entry(variable, entries[key].refCount + 1)];
        log := log + [Operation.Acquire(key)];
        SameIndex(canSignalMap, before, entries);
        return;
      }
      variable := new Variable(factory);
      entries := entries[key := Entry(variable, 1)];
      log := log + [Operation.Acquire(key)];
      RebuildCanSignalMap();
    }

    method Release(key: string)
      requires Valid()
      modifies this
      ensures Valid() && log == old(log) + [Operation.Release(key)]
      ensures entries.Keys == if key in old(entries) && old(entries)[key].refCount == 1 then old(entries.Keys) - {key}
              else old(entries.Keys)
      ensures forall k | k in entries :: entries[k].variable == old(entries)[k].variable
    {
      hide Indexes, Count, Separate;
      CountStep(log, Operation.Release(key));
      log := log + [Operation.Release(key)];
      if key !in entries { return; }
      ghost var before := entries;
      var left := entries[key].refCount - 1;
      if left == 0 {
        entries := entries - {key};
        StaySeparate(before, entries);
        RebuildCanSignalMap();
      } else {
        entries := entries[key := Entry(entries[key].variable, left)];
        StaySeparate(before, entries);
        SameIndex(canSignalMap, before, entries);
      }
    }

    /** Updating through the index is updating every live variable that the message feeds, and nothing else. */
    method OnCanDbcReceived(message: DbcCanMessage)
      requires Valid()
      modifies Variables()
      ensures Valid()
      ensures forall v | v in Variables() :: v.value == Updated(v.source, old(v.value), message)
      ensures forall v | v in Variables() :: IsFed(v.source, old(v.value), v.value, message)
    {
      hide Count, Separate, FirstValueOf, IsFirstValue, Unnamed, IsFed;
      var id := message.messageId;
      if id !in canSignalMap {
        assert Listed(canSignalMap, id) == [];
        forall v | v in Variables()
          ensures IsFed(v.source, old(v.value), v.value, message)
        {
          UpdatedIsFed(v.source, old(v.value), message);
        }
        return;
      }
      var list := canSignalMap[id];
      assert list == Listed(canSignalMap, id);
      for i := 0 to |list|
        invariant forall j | 0 <= j < i :: list[j].value == Updated(list[j].source, old(list[j].value), message)
        invariant forall v | v in Variables() && v !in list[..i] :: v.value == old(v.value)
        invariant forall j | i <= j < |list| :: list[j].value == old(list[j].value)
      {
        var v := list[i];
        assert v in list;
        assert v in Variables() && v.source.CanSignal? && v.source.messageId == id;
        var value := FirstValue(message.signalValues, v.source.signalName);
        if value.Some? { v.value := value.value; }
        assert list[..i + 1] == list[..i] + [v];
      }
      forall v | v in Variables()
        ensures v.value == Updated(v.source, old(v.value), message) && IsFed(v.source, old(v.value), v.value, message)
      {
        UpdatedIsFed(v.source, old(v.value), message);
        if v.source.CanSignal? && v.source.messageId == id {
          var key :| key in entries && entries[key].variable == v;
          assert Feeds(entries, key, id);
        } else {
          assert v !in list;
        }
      }
    }
  }

  lemma StaySeparate(entries: map<string, Entry>, after: map<string, Entry>)
    requires Separate(entries) && after.Keys <= entries.Keys
    requires forall k | k in after :: after[k].variable == entries[k].variable
    ensures Separate(after)
  {
  }

  lemma NothingIndexed(entries: map<string, Entry>)
    ensures Indexes(map[], entries, entries.Keys - entries.Keys)
  {
  }

  lemma SameIndex(index: map<nat, seq<Variable>>, entries: map<string, Entry>, after: map<string, Entry>)
    requires entries.Keys == after.Keys && forall k | k in entries :: after[k].variable == entries[k].variable
    requires Indexes(index, entries, entries.Keys)
    ensures Indexes(index, after, after.Keys)
  {
    forall id
      ensures Distinct(Listed(index, id))
      ensures forall key | key in after && Feeds(after, key, id) :: after[key].variable in Listed(index, id)
      ensures forall v | v in Listed(index, id) ::
                exists key | key in after :: Feeds(after, key, id) && after[key].variable == v
    {
      forall key | key in after && Feeds(after, key, id)
        ensures after[key].variable in Listed(index, id)
      {
        assert Feeds(entries, key, id);
      }
      forall v | v in Listed(index, id)
        ensures exists key | key in after :: Feeds(after, key, id) && after[key].variable == v
      {
        var key :| key in entries && Feeds(entries, key, id) && entries[key].variable == v;
        assert Feeds(after, key, id);
      }
    }
  }

  lemma CountStep(log: seq<Operation>, op: Operation)
    ensures forall key :: Count(log + [op], key) == if Count(log, key) + Weight(op, key) < 0 then 0
            else Count(log, key) + Weight(op, key)
  {
    assert (log + [op])[..|log|] == log;
  }
}
