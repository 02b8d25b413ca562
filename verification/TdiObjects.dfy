/** The objects TdiInfo creates for what its parser found (src/tdi_info.cpp), by name and by id. */
module TdiObjects {

  type Id = nat

  datatype Option<T> = None | Some(value: T)

  /** One entry of the parser's map, in its order, with what was created for it, if anything. */
  datatype Parsed<T> = Parsed(name: string, id: Id, made: Option<T>)

  /** The `i`-th entry is stored: something was created, and nothing for its name before. */
  ghost predicate Stored<T>(entries: seq<Parsed<T>>, i: nat) {
    i < |entries| && entries[i].made.Some? &&
    forall j :: 0 <= j < i && entries[j].name == entries[i].name ==> entries[j].made.None?
  }

  /** It is also the first stored one with its id. */
  ghost predicate FirstOfId<T>(entries: seq<Parsed<T>>, i: nat) {
    Stored(entries, i) &&
    forall j {:trigger Stored(entries, j)} :: 0 <= j < i && Stored(entries, j) ==> entries[j].id != entries[i].id
  }

  /** `objects` holds what was stored of the first `n` entries, by name. */
  ghost predicate ByName<T>(entries: seq<Parsed<T>>, n: nat, objects: map<string, T>)
    requires n <= |entries|
  {
    && (forall x :: x in objects ==> exists i :: 0 <= i < n && Stored(entries, i) && entries[i].name == x)
    && (forall i {:trigger Stored(entries, i)} :: 0 <= i < n && Stored(entries, i) ==>
          entries[i].name in objects && objects[entries[i].name] == entries[i].made.value)
  }

  /** `ids` holds the first of each id. */
  ghost predicate ById<T>(entries: seq<Parsed<T>>, n: nat, ids: map<Id, T>)
    requires n <= |entries|
  {
    && (forall x :: x in ids ==> exists i :: 0 <= i < n && FirstOfId(entries, i) && entries[i].id == x)
    && (forall i {:trigger FirstOfId(entries, i)} :: 0 <= i < n && FirstOfId(entries, i) ==>
          entries[i].id in ids && ids[entries[i].id] == entries[i].made.value)
  }

  lemma {:induction false} FirstMade<T>(entries: seq<Parsed<T>>, j: nat) returns (i: nat)
    requires j < |entries| && entries[j].made.Some?
    ensures i <= j && Stored(entries, i) && entries[i].name == entries[j].name
    decreases j
  {
    if k :| 0 <= k < j && entries[k].name == entries[j].name && entries[k].made.Some? {
      i := FirstMade(entries, k);
    } else {
      i := j;
    }
  }

  lemma {:induction false} FirstStored<T>(entries: seq<Parsed<T>>, j: nat) returns (i: nat)
    requires Stored(entries, j)
    ensures i <= j && FirstOfId(entries, i) && entries[i].id == entries[j].id
    decreases j
  {
    StoredIsMade(entries, j);
    hide Stored;
    if k :| 0 <= k < j && Stored(entries, k) && entries[k].id == entries[j].id {
      i := FirstStored(entries, k);
    } else {
      i := j;
    }
  }

  lemma StoredIsMade<T>(entries: seq<Parsed<T>>, i: nat)
    requires Stored(entries, i)
    ensures i < |entries| && entries[i].made.Some?
  {
  }

  /** The next entry is stored exactly if something was created and its name is new. */
  lemma StoredIff<T>(entries: seq<Parsed<T>>, n: nat, objects: map<string, T>)
    requires n < |entries| && ByName(entries, n, objects)
    ensures Stored(entries, n) <==> entries[n].made.Some? && entries[n].name !in objects
  {
    if entries[n].name in objects {
      var i :| 0 <= i < n && Stored(entries, i) && entries[i].name == entries[n].name;
      StoredIsMade(entries, i);
    } else if k :| 0 <= k < n && entries[k].name == entries[n].name && entries[k].made.Some? {
      var i := FirstMade(entries, k);
    }
  }

  /** And it is found by its id exactly if that is new as well. */
  lemma FirstOfIdIff<T>(entries: seq<Parsed<T>>, n: nat, ids: map<Id, T>)
    requires n < |entries| && ById(entries, n, ids)
    ensures FirstOfId(entries, n) <==> Stored(entries, n) && entries[n].id !in ids
  {
    hide Stored;
    if entries[n].id in ids {
      var i :| 0 <= i < n && FirstOfId(entries, i) && entries[i].id == entries[n].id;
      assert Stored(entries, i);
    } else if k :| 0 <= k < n && Stored(entries, k) && entries[k].id == entries[n].id {
      var i := FirstStored(entries, k);
    }
  }

  lemma OneMoreName<T>(entries: seq<Parsed<T>>, n: nat, objects: map<string, T>)
    requires n < |entries| && ByName(entries, n, objects)
    ensures entries[n].name in objects || entries[n].made.None? ==> ByName(entries, n + 1, objects)
    ensures entries[n].name !in objects && entries[n].made.Some? ==>
              ByName(entries, n + 1, objects[entries[n].name := entries[n].made.value])
  {
    StoredIff(entries, n, objects);
    hide Stored;
    if entries[n].name !in objects && entries[n].made.Some? {
      var more := objects[entries[n].name := entries[n].made.value];
      forall x | x in more
        ensures exists i :: 0 <= i < n + 1 && Stored(entries, i) && entries[i].name == x
      {
        if x in objects {
          var i :| 0 <= i < n && Stored(entries, i) && entries[i].name == x;
        } else {
          assert Stored(entries, n);
        }
      }
    }
  }

  lemma OneMoreId<T>(entries: seq<Parsed<T>>, n: nat, ids: map<Id, T>)
    requires n < |entries| && ById(entries, n, ids)
    ensures entries[n].id in ids || !Stored(entries, n) ==> ById(entries, n + 1, ids)
    ensures entries[n].id !in ids && Stored(entries, n) ==>
              entries[n].made.Some? && ById(entries, n + 1, ids[entries[n].id := entries[n].made.value])
  {
    FirstOfIdIff(entries, n, ids);
    if Stored(entries, n) {
      StoredIsMade(entries, n);
    }
    hide Stored, FirstOfId;
    if entries[n].id !in ids && Stored(entries, n) {
      var more := ids[entries[n].id := entries[n].made.value];
      forall x | x in more
        ensures exists i :: 0 <= i < n + 1 && FirstOfId(entries, i) && entries[i].id == x
      {
        if x in ids {
          var i :| 0 <= i < n && FirstOfId(entries, i) && entries[i].id == x;
        } else {
          assert FirstOfId(entries, n);
        }
      }
    }
  }

  /** The loop of the constructor, the same for tables and for learn objects: the first object of
      a name is stored, and the first stored object of an id is found by it. */
  method CreateObjects<T>(entries: seq<Parsed<T>>) returns (objects: map<string, T>, ids: map<Id, T>)
    ensures ByName(entries, |entries|, objects) && ById(entries, |entries|, ids)
  {
    objects, ids := map[], map[];
    for n := 0 to |entries|
      invariant ByName(entries, n, objects) && ById(entries, n, ids)
    {
      hide Stored, FirstOfId, ByName, ById;
      var e := entries[n];
      StoredIff(entries, n, objects);
      OneMoreName(entries, n, objects);
      OneMoreId(entries, n, ids);
      if e.name !in objects && e.made.Some? {
        if e.id !in ids {
          ids := ids[e.id := e.made.value];
        }
        objects := objects[e.name := e.made.value];
      }
    }
  }

  /** Where no other stored entry has the id, name and id lead to the same object. */
  lemma NamesAndIdsAgree<T>(entries: seq<Parsed<T>>, objects: map<string, T>, ids: map<Id, T>, i: nat)
    requires ByName(entries, |entries|, objects) && ById(entries, |entries|, ids) && Stored(entries, i)
    requires forall j: nat {:trigger Stored(entries, j)} ::
               Stored(entries, j) && entries[j].id == entries[i].id ==> j == i
    ensures entries[i].name in objects && entries[i].id in ids
    ensures objects[entries[i].name] == ids[entries[i].id]
  {
    StoredIsMade(entries, i);
    hide Stored;
    assert FirstOfId(entries, i);
  }

  /** An id leads to what was stored with it first. */
  lemma IdLeadsToFirst<T>(entries: seq<Parsed<T>>, ids: map<Id, T>, id: Id)
    requires ById(entries, |entries|, ids) && id in ids
    ensures exists i :: 0 <= i < |entries| && FirstOfId(entries, i) &&
                        entries[i].id == id && entries[i].made == Some(ids[id])
  {
    var i :| 0 <= i < |entries| && FirstOfId(entries, i) && entries[i].id == id;
    StoredIsMade(entries, i);
    hide Stored, FirstOfId;
    assert entries[i].made == Some(ids[id]);
  }

  /** An id is known exactly if something was stored with it. */
  lemma IdIsKnownIff<T>(entries: seq<Parsed<T>>, ids: map<Id, T>, id: Id)
    requires ById(entries, |entries|, ids)
    ensures id in ids <==> exists i :: 0 <= i < |entries| && Stored(entries, i) && entries[i].id == id
  {
    hide Stored;
    if id in ids {
      var i :| 0 <= i < |entries| && FirstOfId(entries, i) && entries[i].id == id;
      assert Stored(entries, i);
    } else if j :| 0 <= j < |entries| && Stored(entries, j) && entries[j].id == id {
      var i := FirstStored(entries, j);
    }
  }
}
