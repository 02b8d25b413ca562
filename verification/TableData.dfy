/** Which fields of a data object are active (include/tdi/common/tdi_table_data.hpp and
    src/tdi_table_data.cpp). */
module TableData {

  type Id = nat

  /** What happened to a data object: its fields were chosen anew, or one was removed. */
  datatype Op = Choose(fields: seq<Id>) | Remove(field: Id)

  /** The documented meaning of a choice: an empty list chooses every field. */
  predicate Chosen(fields: seq<Id>, f: Id) { fields == [] || f in fields }

  /** The list chosen last, where `first` is the constructor's. */
  function LastChoice(first: seq<Id>, ops: seq<Op>): seq<Id> {
    if ops == [] then first
    else if ops[|ops| - 1].Choose? then ops[|ops| - 1].fields
    else LastChoice(first, ops[..|ops| - 1])
  }

  /** The fields removed since the last choice. */
  function RemovedSince(ops: seq<Op>): set<Id> {
    if ops == [] then {}
    else if ops[|ops| - 1].Choose? then {}
    else RemovedSince(ops[..|ops| - 1]) + {ops[|ops| - 1].field}
  }

  /** A field is active if it belongs to the last choice and was not removed since. */
  predicate ActiveAfter(first: seq<Id>, ops: seq<Op>, f: Id) {
    Chosen(LastChoice(first, ops), f) && f !in RemovedSince(ops)
  }

  class TableData {
    var actionId: Id
    var containerId: Id
    var allFieldsSet: bool
    var activeFields: set<Id>
    var removedOneOfs: set<Id>
    ghost var first: seq<Id>
    ghost var ops: seq<Op>

    /** The fields of the object say what its history says; in particular the explicit set is
        empty whenever all fields are set. */
    ghost predicate Valid()
      reads this
    {
      && (allFieldsSet ==> activeFields == {})
      && removedOneOfs == RemovedSince(ops)
      && (allFieldsSet <==> LastChoice(first, ops) == [])
      && (!allFieldsSet ==> forall f :: f in activeFields <==> f in LastChoice(first, ops) && f !in removedOneOfs)
    }

    constructor (action: Id, container: Id, fields: seq<Id>)
      ensures Valid() && first == fields && ops == []
      ensures actionId == action && containerId == container
    {
      actionId, containerId := action, container;
      allFieldsSet := fields == [];
      activeFields := set f | f in fields;
      removedOneOfs := {};
      first, ops := fields, [];
    }

    method Reset(action: Id, container: Id, fields: seq<Id>)
      requires Valid()
      modifies this
      ensures Valid() && first == old(first) && ops == old(ops) + [Choose(fields)]
      ensures actionId == action && containerId == container
    {
      actionId, containerId := action, container;
      ActiveFieldsSet(fields);
    }

    method ActiveFieldsSet(fields: seq<Id>)
      requires Valid()
      modifies this`allFieldsSet, this`activeFields, this`removedOneOfs, this`ops
      ensures Valid() && ops == old(ops) + [Choose(fields)]
    {
      removedOneOfs := {};
      activeFields := {};
      if fields == [] {
        allFieldsSet := true;
      } else {
        allFieldsSet := false;
        activeFields := set f | f in fields;
      }
      ops := ops + [Choose(fields)];
    }

    method RemoveActiveField(f: Id)
      requires Valid()
      modifies this`allFieldsSet, this`activeFields, this`removedOneOfs, this`ops
      ensures Valid() && ops == old(ops) + [Remove(f)]
    {
      OneMoreRemoval(first, ops, f);
      hide RemovedSince, LastChoice;
      removedOneOfs := removedOneOfs + {f};
      if activeFields != {} {
        activeFields := activeFields - {f};
        allFieldsSet := false;
      }
      ops := ops + [Remove(f)];
    }

    /** Over every history the answer is the documented one. */
    method IsActive(f: Id) returns (active: bool)
      requires Valid()
      ensures active <==> ActiveAfter(first, ops, f)
    {
      if f in removedOneOfs {
        return false;
      }
      if allFieldsSet {
        return true;
      }
      active := f in activeFields;
    }

    /** Any sequence of resets and removals is recorded, and the object stays consistent. */
    method Perform(todo: seq<Op>)
      requires Valid()
      modifies this`allFieldsSet, this`activeFields, this`removedOneOfs, this`ops
      ensures Valid() && first == old(first) && ops == old(ops) + todo
    {
      for i := 0 to |todo|
        invariant Valid() && ops == old(ops) + todo[..i]
      {
        match todo[i] {
          case Choose(fields) => ActiveFieldsSet(fields);
          case Remove(f) => RemoveActiveField(f);
        }
      }
    }
  }

  function Removals(ids: seq<Id>): seq<Op> {
    if ids == [] then [] else Removals(ids[..|ids| - 1]) + [Remove(ids[|ids| - 1])]
  }

  lemma OneMoreRemoval(first: seq<Id>, ops: seq<Op>, f: Id)
    ensures RemovedSince(ops + [Remove(f)]) == RemovedSince(ops) + {f}
    ensures LastChoice(first, ops + [Remove(f)]) == LastChoice(first, ops)
  {
    assert (ops + [Remove(f)])[..|ops|] == ops;
  }

  lemma {:induction false} RemovalsAccumulate(first: seq<Id>, ops: seq<Op>, ids: seq<Id>)
    ensures RemovedSince(ops + Removals(ids)) == RemovedSince(ops) + (set f | f in ids)
    ensures LastChoice(first, ops + Removals(ids)) == LastChoice(first, ops)
    decreases |ids|
  {
    hide RemovedSince, LastChoice;
    if ids == [] {
      assert ops + Removals(ids) == ops;
    } else {
      var init, last := ids[..|ids| - 1], ids[|ids| - 1];
      RemovalsAccumulate(first, ops, init);
      OneMoreRemoval(first, ops + Removals(init), last);
      assert ops + Removals(ids) == ops + Removals(init) + [Remove(last)];
      assert ids == init + [last];
    }
  }

  /** Whatever happened before, after a choice followed by removals exactly the chosen fields that
      were not removed since are active; an empty list chooses all. */
  lemma ChosenAndNotRemoved(first: seq<Id>, before: seq<Op>, fields: seq<Id>, ids: seq<Id>, f: Id)
    ensures ActiveAfter(first, before + [Choose(fields)] + Removals(ids), f) <==>
            (fields == [] || f in fields) && f !in ids
  {
    RemovalsAccumulate(first, before + [Choose(fields)], ids);
  }

  /** The same for the constructor's list. */
  lemma FirstChosenAndNotRemoved(first: seq<Id>, ids: seq<Id>, f: Id)
    ensures ActiveAfter(first, Removals(ids), f) <==> (first == [] || f in first) && f !in ids
  {
    RemovalsAccumulate(first, [], ids);
    assert [] + Removals(ids) == Removals(ids);
  }

  lemma {:induction false} RemovalsAt(ids: seq<Id>)
    ensures |Removals(ids)| == |ids| && forall i :: 0 <= i < |ids| ==> Removals(ids)[i] == Remove(ids[i])
  {
    if ids != [] {
      RemovalsAt(ids[..|ids| - 1]);
    }
  }

  /** After a choice of all fields followed by removals, exactly the removed ones are inactive. */
  lemma OnlyRemovedAreInactive(first: seq<Id>, before: seq<Op>, ids: seq<Id>, f: Id)
    ensures ActiveAfter(first, before + [Choose([])] + Removals(ids), f) <==> f !in ids
  {
    ChosenAndNotRemoved(first, before, [], ids, f);
  }
}
