/** Data fields of a table: parsing them out of the JSON schema with their oneof siblings
    (src/tdi_json_parser/tdi_info_parser.cpp), the name maps and the lookups of TableInfo
    (tdi_table_info.hpp and tdi_table_info.cpp), and picking one member of a oneof group. */
module Schema {
  import TD = TableData

  type Id = nat

  datatype Option<T> = None | Some(value: T)

  /** An abstract JSON data node.  A missing node reads as id 0 and the empty name. */
  datatype Node = Node(id: Id, name: string, singleton: Option<Node>, oneof: Option<seq<Node>>)

  const MISSING: Node := Node(0, "", None, None)

  datatype DataField = DataField(id: Id, name: string, siblings: set<Id>)

  // ---------- parseDataField ----------

  /** A singleton is descended into before a oneof is looked for. */
  function Inner(json: Node): Node { if json.singleton.Some? then json.singleton.value else json }

  function Member(members: seq<Node>, index: nat): Node {
    if index < |members| then members[index] else MISSING
  }

  function Ids(members: seq<Node>): set<Id> { set m | m in members :: m.id }

  function ParsedField(json: Node, index: nat): DataField {
    var inner := Inner(json);
    if inner.oneof.None? then DataField(inner.id, inner.name, {})
    else
      var m := Member(inner.oneof.value, index);
      DataField(m.id, m.name, Ids(inner.oneof.value) - {m.id})
  }

  /** The JSON alone: as its `k`-th field the node has id and name of its own, or, where it has a
      oneof, those of the `k`-th member; a missing member reads as 0 and the empty name. */
  predicate Bears(node: Node, k: nat, id: Id, name: string) {
    match node.oneof
    case None => id == node.id && name == node.name
    case Some(members) =>
      if k < |members| then id == members[k].id && name == members[k].name else id == 0 && name == ""
  }

  /** A data node stands for its singleton, if it has one. */
  predicate Offers(json: Node, k: nat, id: Id, name: string) {
    match json.singleton
    case None => Bears(json, k, id, name)
    case Some(inner) => Bears(inner, k, id, name)
  }

  /** The oneof of a data node, or of its singleton, has a member with the id. */
  ghost predicate HasMember(json: Node, id: Id) {
    var node := match json.singleton case None => json case Some(inner) => inner;
    node.oneof.Some? && exists m :: m in node.oneof.value && m.id == id
  }

  lemma OffersParsed(json: Node, k: nat, id: Id, name: string)
    ensures Offers(json, k, id, name) <==> id == ParsedField(json, k).id && name == ParsedField(json, k).name
  {
  }

  /** The field has the id and name the node offers, and all other members' ids as siblings. */
  method ParseDataField(dataJsonIn: Node, oneofIndex: nat) returns (f: DataField)
    ensures f == ParsedField(dataJsonIn, oneofIndex)
    ensures Offers(dataJsonIn, oneofIndex, f.id, f.name)
    ensures forall s :: s in f.siblings <==> s != f.id && HasMember(dataJsonIn, s)
  {
    var dataJson := dataJsonIn;
    if dataJson.singleton.Some? {
      dataJson := dataJson.singleton.value;
    }
    var siblings := {};
    if dataJson.oneof.Some? {
      var members := dataJson.oneof.value;
      for i := 0 to |members|
        invariant siblings == Ids(members[..i])
      {
        assert members[..i + 1] == members[..i] + [members[i]];
        siblings := siblings + {members[i].id};
      }
      assert members[..|members|] == members;
      dataJson := if oneofIndex < |members| then members[oneofIndex] else MISSING;
      siblings := siblings - {dataJson.id};
    }
    f := DataField(dataJson.id, dataJson.name, siblings);
  }

  // ---------- The data loops of parseTable and parseAction ----------

  /** How many fields the loop of parseTable takes from a node. */
  function FieldCount(json: Node): nat { if json.oneof.Some? then |json.oneof.value| else 1 }

  function FieldsOf(json: Node): seq<DataField> { seq(FieldCount(json), (i: nat) => ParsedField(json, i)) }

  /** The map a loop fills that skips ids it has seen: of several fields the first one stays. */
  function FirstWins(fields: seq<DataField>): map<Id, DataField> {
    if fields == [] then map[] else FirstWins(fields[1..])[fields[0].id := fields[0]]
  }

  lemma {:induction false} FirstWinsAppend(fields: seq<DataField>, f: DataField)
    ensures var m := FirstWins(fields);
            FirstWins(fields + [f]) == (if f.id in m then m else m[f.id := f])
  {
    if fields == [] {
      assert [f][1..] == [];
    } else {
      assert (fields + [f])[1..] == fields[1..] + [f];
      FirstWinsAppend(fields[1..], f);
    }
  }

  lemma {:induction false} FirstWinsIsFirst(fields: seq<DataField>, id: Id) returns (i: nat)
    requires id in FirstWins(fields)
    ensures i < |fields| && fields[i] == FirstWins(fields)[id] && fields[i].id == id
    ensures forall j :: 0 <= j < i ==> fields[j].id != id
  {
    if fields[0].id == id {
      i := 0;
    } else {
      i := FirstWinsIsFirst(fields[1..], id);
      i := i + 1;
      assert forall j :: 0 < j < i ==> fields[j] == fields[1..][j - 1];
    }
  }

  lemma {:induction false} FirstWinsStoresAll(fields: seq<DataField>, i: nat)
    requires i < |fields|
    ensures fields[i].id in FirstWins(fields)
  {
    if i > 0 {
      FirstWinsStoresAll(fields[1..], i - 1);
    }
  }

  function AllFields(nodes: seq<Node>): seq<DataField> {
    if nodes == [] then [] else AllFields(nodes[..|nodes| - 1]) + FieldsOf(nodes[|nodes| - 1])
  }

  /** The inner loop: the fields of one node are stored unless their ids have been seen. */
  method ParseNode(node: Node, map0: map<Id, DataField>, ghost before: seq<DataField>)
    returns (tableDataMap: map<Id, DataField>)
    requires map0 == FirstWins(before)
    ensures tableDataMap == FirstWins(before + FieldsOf(node))
  {
    hide FirstWins, ParsedField;
    tableDataMap := map0;
    ghost var all := FieldsOf(node);
    assert before + all[..0] == before;
    for k := 0 to FieldCount(node)
      invariant tableDataMap == FirstWins(before + all[..k])
    {
      var f := ParseDataField(node, k);
      FirstWinsAppend(before + all[..k], f);
      assert before + all[..k + 1] == before + all[..k] + [f];
      if f.id !in tableDataMap {
        tableDataMap := tableDataMap[f.id := f];
      }
    }
    assert all[..|all|] == all;
  }

  lemma {:induction false} FirstWinsKeys(fields: seq<DataField>)
    ensures forall id :: id in FirstWins(fields) <==> exists f :: f in fields && f.id == id
    ensures forall id :: id in FirstWins(fields) ==> FirstWins(fields)[id] in fields && FirstWins(fields)[id].id == id
  {
    if fields != [] {
      FirstWinsKeys(fields[1..]);
      assert fields == [fields[0]] + fields[1..];
    }
  }

  lemma {:induction false} AllFieldsFrom(nodes: seq<Node>, f: DataField)
    ensures f in AllFields(nodes) <==> exists i :: 0 <= i < |nodes| && f in FieldsOf(nodes[i])
  {
    if nodes != [] {
      var init, last := nodes[..|nodes| - 1], nodes[|nodes| - 1];
      AllFieldsFrom(init, f);
      assert forall i :: 0 <= i < |init| ==> init[i] == nodes[i];
    }
  }

  ghost predicate OffersId(json: Node, k: nat, id: Id) {
    k < FieldCount(json) && exists name :: Offers(json, k, id, name)
  }

  /** The `k`-th field of node `i` is the first one with the id. */
  ghost predicate OffersFirst(nodes: seq<Node>, i: nat, k: nat, id: Id) {
    && i < |nodes| && OffersId(nodes[i], k, id)
    && (forall l :: 0 <= l < k ==> !OffersId(nodes[i], l, id))
    && (forall j, l: nat :: 0 <= j < i ==> !OffersId(nodes[j], l, id))
  }

  lemma FieldAt(json: Node, k: nat, id: Id)
    requires k < FieldCount(json)
    ensures |FieldsOf(json)| == FieldCount(json) && FieldsOf(json)[k] == ParsedField(json, k)
    ensures OffersId(json, k, id) <==> FieldsOf(json)[k].id == id
  {
    var f := ParsedField(json, k);
    OffersParsed(json, k, f.id, f.name);
    forall name
      ensures Offers(json, k, id, name) ==> id == f.id
    {
      OffersParsed(json, k, id, name);
    }
  }

  /** Where the field stored for an id comes from. */
  lemma {:induction false} FirstOffer(nodes: seq<Node>, id: Id, index: nat) returns (i: nat, k: nat)
    requires index < |AllFields(nodes)| && AllFields(nodes)[index].id == id
    requires forall j :: 0 <= j < index ==> AllFields(nodes)[j].id != id
    ensures OffersFirst(nodes, i, k, id) && AllFields(nodes)[index] == ParsedField(nodes[i], k)
  {
    hide ParsedField, Offers, FieldsOf;
    var init, last := nodes[..|nodes| - 1], nodes[|nodes| - 1];
    var before := AllFields(init);
    assert AllFields(nodes) == before + FieldsOf(last);
    assert forall j :: 0 <= j < |init| ==> init[j] == nodes[j];
    assert forall j :: 0 <= j < |before| ==> AllFields(nodes)[j] == before[j];
    if index < |before| {
      i, k := FirstOffer(init, id, index);
    } else {
      i, k := |init|, index - |before|;
      TakenSize(last);
      FieldAt(last, k, id);
      forall l | 0 <= l < k
        ensures !OffersId(last, l, id)
      {
        FieldAt(last, l, id);
        assert AllFields(nodes)[|before| + l] == FieldsOf(last)[l];
      }
      NotOffered(init, id);
    }
  }

  lemma NotOffered(nodes: seq<Node>, id: Id)
    requires forall j :: 0 <= j < |AllFields(nodes)| ==> AllFields(nodes)[j].id != id
    ensures forall i, k: nat :: 0 <= i < |nodes| ==> !OffersId(nodes[i], k, id)
  {
    hide ParsedField, Offers, FieldsOf;
    forall i, k: nat | 0 <= i < |nodes| && OffersId(nodes[i], k, id)
      ensures FieldsOf(nodes[i]) != [] && k < |FieldsOf(nodes[i])|
      ensures FieldsOf(nodes[i])[k].id == id && FieldsOf(nodes[i])[k] in AllFields(nodes)
    {
      FieldAt(nodes[i], k, id);
      AllFieldsFrom(nodes, FieldsOf(nodes[i])[k]);
    }
  }

  lemma TakenSize(json: Node)
    ensures |FieldsOf(json)| == FieldCount(json)
  {
  }

  /** Some node offers the id, and the first that does so goes with the name. */
  ghost predicate NamedByFirst(nodes: seq<Node>, id: Id, name: string) {
    exists i: nat, k: nat :: OffersFirst(nodes, i, k, id) && Offers(nodes[i], k, id, name)
  }

  /** The common data of a table in terms of the JSON alone: an id is stored exactly if a node offers
      it, with the name that goes with it where it is offered first. */
  lemma StoredForTableIff(nodes: seq<Node>, id: Id)
    ensures var m := FirstWins(AllFields(nodes));
            && (id in m <==> exists i, k: nat :: 0 <= i < |nodes| && OffersId(nodes[i], k, id))
            && (id in m ==> m[id].id == id && NamedByFirst(nodes, id, m[id].name))
  {
    hide ParsedField, Offers, FieldsOf, OffersFirst, AllFields, FirstWins;
    var m := FirstWins(AllFields(nodes));
    if id in m {
      var index := FirstWinsIsFirst(AllFields(nodes), id);
      var i, k := FirstOffer(nodes, id, index);
      FirstIsOffered(nodes, i, k, id);
      OffersParsed(nodes[i], k, id, m[id].name);
    }
    forall i, k: nat | 0 <= i < |nodes| && OffersId(nodes[i], k, id)
      ensures id in m
    {
      FieldAt(nodes[i], k, id);
      AllFieldsFrom(nodes, FieldsOf(nodes[i])[k]);
      FirstWinsKeys(AllFields(nodes));
    }
  }

  lemma FirstIsOffered(nodes: seq<Node>, i: nat, k: nat, id: Id)
    requires OffersFirst(nodes, i, k, id)
    ensures i < |nodes| && OffersId(nodes[i], k, id)
  {
  }

  method ParseTableData(nodes: seq<Node>) returns (tableDataMap: map<Id, DataField>)
    ensures tableDataMap == FirstWins(AllFields(nodes))
  {
    tableDataMap := map[];
    for n := 0 to |nodes|
      invariant tableDataMap == FirstWins(AllFields(nodes[..n]))
    {
      tableDataMap := ParseNode(nodes[n], tableDataMap, AllFields(nodes[..n]));
      assert nodes[..n + 1][..n] == nodes[..n];
    }
    assert nodes[..|nodes|] == nodes;
  }

  /** An action keeps the first member of a oneof only. */
  function ActionFields(nodes: seq<Node>): seq<DataField> {
    seq(|nodes|, i requires 0 <= i < |nodes| => ParsedField(nodes[i], 0))
  }

  ghost predicate NamedByFirstNode(nodes: seq<Node>, id: Id, name: string) {
    exists i ::
      && 0 <= i < |nodes| && Offers(nodes[i], 0, id, name)
      && forall j, other :: 0 <= j < i ==> !Offers(nodes[j], 0, id, other)
  }

  /** The data of an action in terms of the JSON alone: an id is stored exactly if it is the first
      one a node offers, with the name that goes with it in the first such node. */
  lemma StoredForActionIff(nodes: seq<Node>, id: Id)
    ensures var m := FirstWins(ActionFields(nodes));
            && (id in m <==> exists i, name :: 0 <= i < |nodes| && Offers(nodes[i], 0, id, name))
            && (id in m ==> m[id].id == id)
            && (id in m ==> NamedByFirstNode(nodes, id, m[id].name))
  {
    hide ParsedField, Offers, FirstWins;
    var fields := ActionFields(nodes);
    var m := FirstWins(fields);
    forall i, name | 0 <= i < |nodes|
      ensures Offers(nodes[i], 0, id, name) <==> id == fields[i].id && name == fields[i].name
    {
      OffersParsed(nodes[i], 0, id, name);
    }
    if id in m {
      var i := FirstWinsIsFirst(fields, id);
      assert Offers(nodes[i], 0, id, m[id].name);
    }
    if i, name :| 0 <= i < |nodes| && Offers(nodes[i], 0, id, name) {
      FirstWinsStoresAll(fields, i);
    }
  }

  method ParseActionData(nodes: seq<Node>) returns (dataFields: map<Id, DataField>)
    ensures dataFields == FirstWins(ActionFields(nodes))
  {
    dataFields := map[];
    ghost var all := ActionFields(nodes);
    for n := 0 to |nodes|
      invariant dataFields == FirstWins(all[..n])
    {
      var f := ParseDataField(nodes[n], 0);
      FirstWinsAppend(all[..n], f);
      assert all[..n + 1] == all[..n] + [f];
      if f.id !in dataFields {
        dataFields := dataFields[f.id := f];
      }
    }
    assert all[..|all|] == all;
  }

  // ---------- Oneof groups ----------

  /** The ids a data node declares: those of the members of its oneof, or its own. */
  function Declared(json: Node): set<Id> {
    if Inner(json).oneof.Some? then Ids(Inner(json).oneof.value) else {Inner(json).id}
  }

  /** The loop of parseTable runs past the last member; a missing member reads as id 0. */
  predicate Overruns(json: Node) {
    Inner(json).oneof.Some? && |Inner(json).oneof.value| < FieldCount(json)
  }

  function Mentioned(json: Node): set<Id> { Declared(json) + if Overruns(json) then {0} else {} }

  predicate DisjointGroups(nodes: seq<Node>) {
    forall i, j :: 0 <= i < j < |nodes| ==> Mentioned(nodes[i]) !! Mentioned(nodes[j])
  }

  function FirstN(members: seq<Node>, n: nat): seq<Node> { if n < |members| then members[..n] else members }

  /** The loop counts the oneof beside a singleton, not the one inside it.  Counted are enough
      members to meet each declared id, and no more than there are unless one has id 0. */
  predicate FullyRead(json: Node) {
    if Inner(json).oneof.None? then 1 <= FieldCount(json)
    else
      var members := Inner(json).oneof.value;
      && Ids(members) <= Ids(FirstN(members, FieldCount(json)))
      && (Overruns(json) && members != [] ==> 0 in Ids(members))
  }

  /** The ids the loop takes from a node. */
  function TakenIds(json: Node): set<Id> { set f | f in FieldsOf(json) :: f.id }

  lemma TakenAt(json: Node, k: nat)
    requires k < FieldCount(json)
    ensures ParsedField(json, k).id in TakenIds(json)
  {
    assert FieldsOf(json)[k] in FieldsOf(json);
  }

  lemma TakenFromOneof(json: Node)
    requires Inner(json).oneof.Some?
    ensures var members := Inner(json).oneof.value;
            TakenIds(json) == Ids(FirstN(members, FieldCount(json))) + if Overruns(json) then {0} else {}
  {
    var members, n := Inner(json).oneof.value, FieldCount(json);
    var first := FirstN(members, n);
    forall id | id in TakenIds(json)
      ensures id in Ids(first) || (Overruns(json) && id == 0)
    {
      var f :| f in FieldsOf(json) && f.id == id;
      var k :| 0 <= k < n && f == ParsedField(json, k);
      if k < |members| { assert first[k] in first; }
    }
    forall id | id in Ids(first)
      ensures id in TakenIds(json)
    {
      var k :| 0 <= k < |first| && first[k].id == id;
      TakenAt(json, k);
    }
    if Overruns(json) {
      TakenAt(json, |members|);
    }
  }

  /** Whatever is taken from a node is among the ids it mentions, and its siblings are the other
      ids the node declares. */
  lemma TakenField(json: Node, f: DataField)
    requires f in FieldsOf(json)
    ensures f.id in Mentioned(json) && f.siblings == Declared(json) - {f.id}
  {
    var k :| 0 <= k < FieldCount(json) && f == ParsedField(json, k);
  }

  /** With disjoint groups a stored field comes from the node that mentions its id, and its
      siblings are always the rest of the declared group, whether they are stored or not. */
  lemma StoredSiblings(nodes: seq<Node>, i: nat, id: Id)
    requires DisjointGroups(nodes) && i < |nodes| && id in Mentioned(nodes[i])
    ensures id in FirstWins(AllFields(nodes)) <==> id in TakenIds(nodes[i])
    ensures id in FirstWins(AllFields(nodes)) ==>
              FirstWins(AllFields(nodes))[id].siblings == Declared(nodes[i]) - {id}
  {
    hide AllFields, FirstWins, FieldsOf, Mentioned, Declared;
    var m := FirstWins(AllFields(nodes));
    FirstWinsKeys(AllFields(nodes));
    if id in TakenIds(nodes[i]) {
      var f :| f in FieldsOf(nodes[i]) && f.id == id;
      AllFieldsFrom(nodes, f);
    }
    if id in m {
      AllFieldsFrom(nodes, m[id]);
      var j :| 0 <= j < |nodes| && m[id] in FieldsOf(nodes[j]);
      TakenField(nodes[j], m[id]);
      assert i == j;
    }
  }

  lemma MentionedByNode(nodes: seq<Node>, id: Id) returns (i: nat)
    requires id in FirstWins(AllFields(nodes))
    ensures i < |nodes| && id in Mentioned(nodes[i]) && id in TakenIds(nodes[i])
  {
    hide Mentioned, Declared;
    FirstWinsKeys(AllFields(nodes));
    var field := FirstWins(AllFields(nodes))[id];
    AllFieldsFrom(nodes, field);
    i :| 0 <= i < |nodes| && field in FieldsOf(nodes[i]);
    TakenField(nodes[i], field);
  }

  /** Irreflexive, symmetric, and within the stored fields. */
  ghost predicate Mutual(m: map<Id, DataField>) {
    forall f, g :: f in m && g in m[f].siblings ==> f != g && g in m && f in m[g].siblings
  }

  /** Every declared id is stored with all others of its group as siblings. */
  ghost predicate CompleteGroups(m: map<Id, DataField>, nodes: seq<Node>) {
    forall i, f :: 0 <= i < |nodes| && f in Declared(nodes[i]) ==> f in m && Declared(nodes[i]) - {f} <= m[f].siblings
  }

  /** What one node must do for it: all it declares is taken, and nothing else if it declares any. */
  ghost predicate TakenInFull(json: Node) {
    && Declared(json) <= TakenIds(json)
    && (Declared(json) != {} ==> TakenIds(json) <= Declared(json))
  }

  lemma TakenInFullIff(json: Node)
    ensures TakenInFull(json) <==> FullyRead(json)
  {
    if Inner(json).oneof.None? {
      if 1 <= FieldCount(json) {
        TakenAt(json, 0);
      }
    } else {
      TakenFromOneof(json);
      var members := Inner(json).oneof.value;
      if members != [] {
        assert members[0].id in Ids(members);
      }
    }
  }

  /** A schema with disjoint groups is stored with a sibling relation that is irreflexive, symmetric
      and complete within each group exactly when each of its nodes is fully read. */
  lemma SiblingsAreGroupsIff(nodes: seq<Node>)
    requires DisjointGroups(nodes)
    ensures Mutual(FirstWins(AllFields(nodes))) && CompleteGroups(FirstWins(AllFields(nodes)), nodes)
            <==> forall i :: 0 <= i < |nodes| ==> FullyRead(nodes[i])
  {
    hide Declared, Mentioned, TakenIds, FullyRead, AllFields, FirstWins, DisjointGroups;
    var m := FirstWins(AllFields(nodes));
    forall i | 0 <= i < |nodes|
      ensures TakenInFull(nodes[i]) <==> FullyRead(nodes[i])
      ensures forall id :: id in Declared(nodes[i]) ==> (id in m <==> id in TakenIds(nodes[i]))
      ensures forall id :: id in TakenIds(nodes[i]) ==> id in m && m[id].siblings == Declared(nodes[i]) - {id}
    {
      TakenInFullIff(nodes[i]);
      NodeIsStored(nodes, i);
    }
    if forall i :: 0 <= i < |nodes| ==> FullyRead(nodes[i]) {
      forall f, g | f in m && g in m[f].siblings
        ensures f != g && g in m && f in m[g].siblings
      {
        var i := MentionedByNode(nodes, f);
        assert g in Declared(nodes[i]) && TakenInFull(nodes[i]);
      }
    } else {
      var i :| 0 <= i < |nodes| && !FullyRead(nodes[i]);
      if Declared(nodes[i]) <= TakenIds(nodes[i]) {
        // a missing member was read: it has siblings that do not have it
        var f, g :| f in TakenIds(nodes[i]) && f !in Declared(nodes[i]) && g in Declared(nodes[i]);
        assert g in m[f].siblings && f !in m[g].siblings;
      }
    }
  }

  lemma NodeIsStored(nodes: seq<Node>, i: nat)
    requires DisjointGroups(nodes) && i < |nodes|
    ensures var m := FirstWins(AllFields(nodes));
            && (forall id :: id in Declared(nodes[i]) ==> (id in m <==> id in TakenIds(nodes[i])))
            && (forall id :: id in TakenIds(nodes[i]) ==> id in m && m[id].siblings == Declared(nodes[i]) - {id})
  {
    hide AllFields, FirstWins, FieldsOf, DisjointGroups;
    forall id | id in Declared(nodes[i]) || id in TakenIds(nodes[i])
      ensures id in Mentioned(nodes[i])
    {
      if id in TakenIds(nodes[i]) {
        var f :| f in FieldsOf(nodes[i]) && f.id == id;
        TakenField(nodes[i], f);
      }
    }
    forall id | id in Mentioned(nodes[i])
      ensures var m := FirstWins(AllFields(nodes));
              && (id in m <==> id in TakenIds(nodes[i]))
              && (id in m ==> m[id].siblings == Declared(nodes[i]) - {id})
    {
      StoredSiblings(nodes, i, id);
    }
  }

  /** A singleton that holds a oneof with two different ids. */
  ghost predicate HoldsTwo(n: Node) {
    n.singleton.Some? && n.singleton.value.oneof.Some? &&
    exists a, b :: a in n.singleton.value.oneof.value && b in n.singleton.value.oneof.value && a.id != b.id
  }

  /** So in a schema where no singleton stands beside a oneof, the relation is right exactly when
      no singleton holds a oneof with two different ids. */
  lemma SingletonsLoseMembersIff(nodes: seq<Node>)
    requires DisjointGroups(nodes)
    requires forall n :: n in nodes && n.singleton.Some? ==> n.oneof.None?
    ensures Mutual(FirstWins(AllFields(nodes))) && CompleteGroups(FirstWins(AllFields(nodes)), nodes) <==>
            forall n :: n in nodes ==> !HoldsTwo(n)
  {
    hide FirstWins, AllFields, DisjointGroups, Mutual, CompleteGroups, FullyRead, HoldsTwo;
    SiblingsAreGroupsIff(nodes);
    forall n | n in nodes
      ensures FullyRead(n) <==> !HoldsTwo(n)
    {
      FullyReadWithoutBoth(n);
    }
    if forall n :: n in nodes ==> FullyRead(n) {
      assert forall i :: 0 <= i < |nodes| ==> nodes[i] in nodes;
    }
  }

  lemma FullyReadWithoutBoth(n: Node)
    requires n.singleton.Some? ==> n.oneof.None?
    ensures FullyRead(n) <==> !HoldsTwo(n)
  {
    if n.singleton.Some? && n.singleton.value.oneof.Some? {
      var members := n.singleton.value.oneof.value;
      if members != [] {
        assert Ids(FirstN(members, 1)) == {members[0].id} by {
          assert FirstN(members, 1) == [members[0]];
        }
        assert forall a :: a in members ==> a.id in Ids(members);
        assert members[0] in members;
      }
    } else if n.oneof.Some? {
      assert FirstN(n.oneof.value, |n.oneof.value|) == n.oneof.value;
    }
  }

  /** A singleton that holds a oneof of two fields: the second is lost, but stays a sibling. */
  lemma LostMember()
    ensures var oneof := Node(0, "", None, Some([Node(1, "a", None, None), Node(2, "b", None, None)]));
            FirstWins(AllFields([Node(0, "", Some(oneof), None)])) == map[1 := DataField(1, "a", {2})]
  {
    var members := [Node(1, "a", None, None), Node(2, "b", None, None)];
    var node := Node(0, "", Some(Node(0, "", None, Some(members))), None);
    assert [node][..0] == [];
    assert Ids(members) == {1, 2} by {
      assert members[0] in members && members[1] in members;
    }
    assert Ids(members) - {1} == {2};
    assert FieldsOf(node) == [ParsedField(node, 0)] == [DataField(1, "a", {2})];
    assert AllFields([node]) == [] + FieldsOf(node) == [DataField(1, "a", {2})];
    assert [DataField(1, "a", {2})][1..] == [];
  }

  // ---------- Picking one member of a group ----------

  /** Resetting a data object to all fields and removing the siblings of a field leaves that
      field the only active one of its group, and every field outside the group active. */
  method PickMember(d: TD.TableData, field: DataField)
    requires d.Valid()
    modifies d
    ensures d.Valid()
    ensures forall f :: TD.ActiveAfter(d.first, d.ops, f) <==> f !in field.siblings
  {
    ghost var before := d.ops;
    d.Reset(0, 0, []);
    var left := field.siblings;
    ghost var removed := [];
    while left != {}
      invariant d.Valid() && left <= field.siblings
      invariant d.ops == before + [TD.Choose([])] + TD.Removals(removed)
      invariant forall f :: f in removed <==> f in field.siblings - left
      decreases left
    {
      var f :| f in left;
      d.RemoveActiveField(f);
      assert (removed + [f])[..|removed|] == removed;
      removed := removed + [f];
      left := left - {f};
    }
    forall f
      ensures TD.ActiveAfter(d.first, d.ops, f) <==> f !in field.siblings
    {
      TD.OnlyRemovedAreInactive(d.first, before, removed, f);
    }
  }

  /** For a stored field of any schema with disjoint groups that makes it the only active member
      of its declared group. */
  lemma PickedIsSoleActive(nodes: seq<Node>, i: nat, id: Id, first: seq<Id>, ops: seq<TD.Op>)
    requires DisjointGroups(nodes) && i < |nodes|
    requires id in Declared(nodes[i]) && id in FirstWins(AllFields(nodes))
    requires forall f :: TD.ActiveAfter(first, ops, f) <==> f !in FirstWins(AllFields(nodes))[id].siblings
    ensures forall f :: f in Declared(nodes[i]) ==> (TD.ActiveAfter(first, ops, f) <==> f == id)
    ensures forall f :: f !in Declared(nodes[i]) ==> TD.ActiveAfter(first, ops, f)
  {
    hide Declared, FieldsOf, AllFields, FirstWins, DisjointGroups;
    StoredSiblings(nodes, i, id);
  }

  // ---------- The name maps ----------

  /** Of the fields with ids in `done`, each name has the one with the largest id. */
  ghost predicate NamesOf(fields: map<Id, DataField>, done: set<Id>, names: map<string, DataField>)
    requires done <= fields.Keys
  {
    && (forall n :: n in names ==> exists id :: id in done && fields[id] == names[n] && fields[id].name == n)
    && (forall id :: id in done ==> fields[id].name in names && id <= names[fields[id].name].id)
  }

  ghost predicate IsNameMap(fields: map<Id, DataField>, names: map<string, DataField>) {
    NamesOf(fields, fields.Keys, names)
  }

  ghost predicate KeyedById(fields: map<Id, DataField>) {
    forall id :: id in fields ==> fields[id].id == id
  }

  lemma {:induction false} Least(s: set<Id>) returns (m: Id)
    requires s != {}
    ensures m in s && forall y :: y in s ==> m <= y
    decreases s
  {
    var x :| x in s;
    var rest := s - {x};
    assert forall y :: y in s ==> y == x || y in rest;
    m := x;
    if rest != {} {
      var z := Least(rest);
      m := if z < x then z else x;
    }
  }

  /** The constructors' loop: the id map is walked in ascending order and overwrites. */
  method BuildNameMap(fields: map<Id, DataField>) returns (names: map<string, DataField>)
    requires KeyedById(fields)
    ensures IsNameMap(fields, names)
  {
    names := map[];
    var todo := fields.Keys;
    while todo != {}
      invariant todo <= fields.Keys
      invariant forall a, b :: a in fields.Keys - todo && b in todo ==> a < b
      invariant NamesOf(fields, fields.Keys - todo, names)
      decreases todo
    {
      ghost var least := Least(todo);
      var id :| id in todo && forall other :: other in todo ==> id <= other;
      OneMoreName(fields, fields.Keys - todo, id, names);
      names := names[fields[id].name := fields[id]];
      assert fields.Keys - (todo - {id}) == fields.Keys - todo + {id};
      todo := todo - {id};
    }
    assert fields.Keys - {} == fields.Keys;
  }

  lemma OneMoreName(fields: map<Id, DataField>, done: set<Id>, id: Id, names: map<string, DataField>)
    requires KeyedById(fields) && id in fields && done <= fields.Keys
    requires forall a :: a in done ==> a < id
    requires NamesOf(fields, done, names)
    ensures NamesOf(fields, done + {id}, names[fields[id].name := fields[id]])
  {
    var names' := names[fields[id].name := fields[id]];
    forall n | n in names'
      ensures exists a :: a in done + {id} && fields[a] == names'[n] && fields[a].name == n
    {
      if n != fields[id].name {
        var a :| a in done && fields[a] == names[n] && fields[a].name == n;
        assert a in done + {id};
      } else {
        assert id in done + {id};
      }
    }
  }

  // ---------- TableInfo lookups ----------

  datatype ActionInfo = ActionInfo(fields: map<Id, DataField>, names: map<string, DataField>)

  datatype TableInfo = TableInfo(keyIds: set<Id>, data: map<Id, DataField>, dataNames: map<string, DataField>,
                                 actions: map<Id, ActionInfo>, notificationIds: set<Id>) {

    ghost predicate Valid() {
      && KeyedById(data) && IsNameMap(data, dataNames)
      && forall a :: a in actions ==> KeyedById(actions[a].fields) && IsNameMap(actions[a].fields, actions[a].names)
    }

    /** Action id 0 stands for no action, whether or not an action has that id. */
    predicate HasAction(action: Id) { action != 0 && action in actions }

    function FieldById(id: Id, action: Id): Option<DataField> {
      if HasAction(action) && id in actions[action].fields then Some(actions[action].fields[id])
      else if id in data then Some(data[id])
      else None
    }

    function FieldByName(name: string, action: Id): Option<DataField> {
      if HasAction(action) && name in actions[action].names then Some(actions[action].names[name])
      else if name in dataNames then Some(dataNames[name])
      else None
    }

    function IdByName(name: string, action: Id): Id {
      var f := FieldByName(name, action);
      if f.None? then 0 else f.value.id
    }

    function ActionIds(action: Id): set<Id> {
      if HasAction(action) then actions[action].fields.Keys else {}
    }

    /** With action id 0 or an unknown one only common fields are found; otherwise an action's own
        fields come before the common ones. */
    lemma OwnFieldsComeFirst(id: Id, name: string, action: Id)
      ensures action == 0 || action !in actions || id !in actions[action].fields ==>
                FieldById(id, action) == if id in data then Some(data[id]) else None
      ensures action != 0 && action in actions && id in actions[action].fields ==>
                FieldById(id, action) == Some(actions[action].fields[id])
      ensures action == 0 || action !in actions || name !in actions[action].names ==>
                FieldByName(name, action) == if name in dataNames then Some(dataNames[name]) else None
      ensures action != 0 && action in actions && name in actions[action].names ==>
                FieldByName(name, action) == Some(actions[action].names[name])
      ensures IdByName(name, action) == 0 || FieldByName(name, action).Some?
    {
    }

    /** The ids of the action and the common ids, sorted; an id in both appears twice. */
    method DataFieldIdListGet(action: Id) returns (ids: seq<Id>)
      ensures Sorted(ids)
      ensures action != 0 && action in actions ==>
                multiset(ids) == multiset(actions[action].fields.Keys) + multiset(data.Keys)
      ensures action == 0 || action !in actions ==> multiset(ids) == multiset(data.Keys)
      ensures forall id :: id in ids <==> FieldById(id, action).Some?
    {
      ids := [];
      if action != 0 {
        if action in actions {
          ids := PushIds(ids, actions[action].fields.Keys);
        }
      }
      ids := PushIds(ids, data.Keys);
      hide Sorted, SortIds, FieldById;
      SortIsSorted(ids);
      ids := SortIds(ids);
      ListedAreFound(ids, action);
    }

    lemma ListedAreFound(ids: seq<Id>, action: Id)
      requires multiset(ids) == multiset(ActionIds(action)) + multiset(data.Keys)
      ensures forall id :: id in ids <==> FieldById(id, action).Some?
    {
      assert forall id :: id in ids <==> id in multiset(ids);
    }

    /** The id found for a name leads back to a field of that name. */
    predicate LeadsBack(name: string, action: Id)
      requires FieldByName(name, action).Some?
    {
      var f := FieldById(IdByName(name, action), action); f.Some? && f.value.name == name
    }

    /** A common field, the one of its name with the largest id, has an id that the action uses for
        a field of another name, and the action has no field of that name. */
    ghost predicate Shadowed(id: Id, action: Id) {
      && id in data && id in ActionIds(action)
      && (forall other :: other in data && data[other].name == data[id].name ==> other <= id)
      && (forall a :: a in ActionIds(action) ==> actions[action].fields[a].name != data[id].name)
    }

    lemma CommonNameIsLargest(name: string, action: Id)
      requires Valid() && name in dataNames
      ensures var id := dataNames[name].id;
              && id in data && data[id] == dataNames[name] && dataNames[name].name == name
              && (forall other :: other in data && data[other].name == name ==> other <= id)
    {
    }

    lemma ActionNameIsBorne(name: string, action: Id)
      requires Valid() && HasAction(action)
      ensures name in actions[action].names <==>
              exists a :: a in ActionIds(action) && actions[action].fields[a].name == name
    {
      var info := actions[action];
      assert NamesOf(info.fields, info.fields.Keys, info.names);
    }

    /** For one action: every name that is found leads back exactly when no common field is
        shadowed by the action. */
    lemma NamesLeadBackIff(action: Id)
      requires Valid()
      ensures (forall name :: FieldByName(name, action).Some? ==> LeadsBack(name, action))
              <==> forall id :: !Shadowed(id, action)
    {
      forall name | FieldByName(name, action).Some? && !LeadsBack(name, action)
        ensures Shadowed(IdByName(name, action), action)
      {
        if HasAction(action) { ActionNameIsBorne(name, action); }
        assert name in dataNames;
        CommonNameIsLargest(name, action);
      }
      forall id | Shadowed(id, action)
        ensures FieldByName(data[id].name, action).Some? && !LeadsBack(data[id].name, action)
      {
        var name := data[id].name;
        if HasAction(action) { ActionNameIsBorne(name, action); }
        assert NamesOf(data, data.Keys, dataNames);
        CommonNameIsLargest(name, action);
      }
    }

    /** In particular they all do when action ids and common ids are disjoint. */
    lemma DisjointIdsLeadBack(name: string, action: Id)
      requires Valid() && ActionIds(action) !! data.Keys && IdByName(name, action) != 0
      ensures FieldById(IdByName(name, action), action).Some?
      ensures FieldById(IdByName(name, action), action).value.name == name
    {
      NamesLeadBackIff(action);
      assert LeadsBack(name, action);
    }
  }

  /** A common field x with id 1 and an action 7 whose field y has id 1 too: x leads to y. */
  lemma ShadowedName()
    ensures var x, y := DataField(1, "x", {}), DataField(1, "y", {});
            var t := TableInfo({}, map[1 := x], map["x" := x], map[7 := ActionInfo(map[1 := y], map["y" := y])], {});
            t.Valid() && t.IdByName("x", 7) == 1 && t.FieldById(1, 7) == Some(y)
  {
    OneFieldNamed(DataField(1, "x", {}));
    OneFieldNamed(DataField(1, "y", {}));
  }

  lemma OneFieldNamed(f: DataField)
    ensures KeyedById(map[f.id := f]) && IsNameMap(map[f.id := f], map[f.name := f])
  {
    var fields := map[f.id := f];
    assert f.id in fields && fields[f.id] == f;
  }

  datatype ActionSpec = ActionSpec(id: Id, data: seq<Node>)

  ghost predicate ActionsFrom(specs: seq<ActionSpec>, actions: map<Id, ActionInfo>) {
    && (forall a :: a in actions ==> KeyedById(actions[a].fields) && IsNameMap(actions[a].fields, actions[a].names))
    && (forall a :: a in actions ==> exists i :: 0 <= i < |specs| && specs[i].id == a)
    && (forall i :: 0 <= i < |specs| ==>
          specs[i].id in actions && actions[specs[i].id].fields == FirstWins(ActionFields(specs[i].data)))
  }

  ghost predicate Repeats(ids: seq<Id>) { exists i, j :: 0 <= i < j < |ids| && ids[i] == ids[j] }

  function IdsOfSpecs(specs: seq<ActionSpec>): seq<Id> {
    seq(|specs|, i requires 0 <= i < |specs| => specs[i].id)
  }

  /** The loops over keys and over notifications: a repeated id ends them. */
  method CollectIds(ids: seq<Id>) returns (ok: bool, found: set<Id>)
    ensures !ok <==> Repeats(ids)
    ensures ok ==> forall id :: id in found <==> id in ids
  {
    found := {};
    for n := 0 to |ids|
      invariant forall id :: id in found <==> id in ids[..n]
      invariant forall i, j :: 0 <= i < j < n ==> ids[i] != ids[j]
    {
      if ids[n] in found {
        var i :| 0 <= i < n && ids[..n][i] == ids[n];
        return false, found;
      }
      assert ids[..n + 1] == ids[..n] + [ids[n]];
      found := found + {ids[n]};
    }
    assert ids[..|ids|] == ids;
    ok := true;
  }

  /** parseTable as far as ids go.  A repeated key, action or notification id, unlike a repeated
      data id, makes the whole table unusable; if there is none the table info is consistent. */
  method ParseTable(keys: seq<Id>, data: seq<Node>, specs: seq<ActionSpec>, notifications: seq<Id>)
    returns (t: Option<TableInfo>)
    ensures t.None? <==> Repeats(keys) || Repeats(IdsOfSpecs(specs)) || Repeats(notifications)
    ensures t.Some? ==> t.value.Valid() && t.value.data == FirstWins(AllFields(data))
    ensures t.Some? ==> ActionsFrom(specs, t.value.actions)
    ensures t.Some? ==> (forall k :: k in t.value.keyIds <==> k in keys) &&
                        (forall k :: k in t.value.notificationIds <==> k in notifications)
  {
    hide FirstWins, AllFields, IsNameMap, KeyedById, ActionsFrom, Repeats;
    var keysOk, keyIds := CollectIds(keys);
    if !keysOk {
      return None;
    }
    var dataMap := ParseTableData(data);
    StoredIsKeyed(AllFields(data));
    var dataNames := BuildNameMap(dataMap);
    var actionsOk, actions := ParseActions(specs);
    if !actionsOk {
      return None;
    }
    var notificationsOk, notificationIds := CollectIds(notifications);
    if !notificationsOk {
      return None;
    }
    t := Some(TableInfo(keyIds, dataMap, dataNames, actions, notificationIds));
    ActionsAreConsistent(specs, actions);
  }

  /** The loop over the action specs. */
  method ParseActions(specs: seq<ActionSpec>) returns (ok: bool, actions: map<Id, ActionInfo>)
    ensures !ok <==> Repeats(IdsOfSpecs(specs))
    ensures ok ==> ActionsFrom(specs, actions)
  {
    hide FirstWins, IsNameMap, KeyedById, ActionsFrom;
    actions := map[];
    NoActions(specs[..0]);
    for n := 0 to |specs|
      invariant forall i, j :: 0 <= i < j < n ==> specs[i].id != specs[j].id
      invariant ActionsFrom(specs[..n], actions)
    {
      var fields := ParseActionData(specs[n].data);
      StoredIsKeyed(ActionFields(specs[n].data));
      var names := BuildNameMap(fields);
      KnownAction(specs, n, actions);
      if specs[n].id in actions {
        var i :| 0 <= i < n && specs[i].id == specs[n].id;
        assert IdsOfSpecs(specs)[i] == IdsOfSpecs(specs)[n];
        return false, actions;
      }
      OneMoreAction(specs, n, actions, ActionInfo(fields, names));
      actions := actions[specs[n].id := ActionInfo(fields, names)];
    }
    assert specs[..|specs|] == specs;
    ok := true;
  }

  lemma StoredIsKeyed(fields: seq<DataField>)
    ensures KeyedById(FirstWins(fields))
  {
    FirstWinsKeys(fields);
  }

  lemma NoActions(specs: seq<ActionSpec>)
    requires specs == []
    ensures ActionsFrom(specs, map[])
  {
  }

  lemma ActionsAreConsistent(specs: seq<ActionSpec>, actions: map<Id, ActionInfo>)
    requires ActionsFrom(specs, actions)
    ensures forall a :: a in actions ==> KeyedById(actions[a].fields) && IsNameMap(actions[a].fields, actions[a].names)
  {
  }

  lemma KnownAction(specs: seq<ActionSpec>, n: nat, actions: map<Id, ActionInfo>)
    requires n < |specs| && ActionsFrom(specs[..n], actions)
    ensures specs[n].id in actions <==> exists i :: 0 <= i < n && specs[i].id == specs[n].id
  {
    var before := specs[..n];
    assert forall i :: 0 <= i < n ==> before[i] == specs[i];
  }

  lemma OneMoreAction(specs: seq<ActionSpec>, n: nat, actions: map<Id, ActionInfo>, a: ActionInfo)
    requires n < |specs| && ActionsFrom(specs[..n], actions) && specs[n].id !in actions
    requires a.fields == FirstWins(ActionFields(specs[n].data)) && KeyedById(a.fields) && IsNameMap(a.fields, a.names)
    ensures ActionsFrom(specs[..n + 1], actions[specs[n].id := a])
  {
    hide FirstWins, ActionFields, IsNameMap, KeyedById;
    var more, upTo := actions[specs[n].id := a], specs[..n + 1];
    assert forall i :: 0 <= i < n ==> upTo[i] == specs[..n][i];
    assert upTo[n] == specs[n];
  }

  method PushIds(ids: seq<Id>, keys: set<Id>) returns (r: seq<Id>)
    ensures multiset(r) == multiset(ids) + multiset(keys)
  {
    r := ids;
    var left := keys;
    while left != {}
      invariant left <= keys
      invariant multiset(r) == multiset(ids) + multiset(keys - left)
      decreases left
    {
      var id :| id in left;
      r := r + [id];
      assert keys - (left - {id}) == (keys - left) + {id};
      left := left - {id};
    }
    assert keys - {} == keys;
  }

  predicate Sorted(ids: seq<Id>) { forall i, j :: 0 <= i < j < |ids| ==> ids[i] <= ids[j] }

  /** `std::sort` */
  function SortIds(ids: seq<Id>): seq<Id> {
    if ids == [] then [] else Insert(ids[0], SortIds(ids[1..]))
  }

  function Insert(x: Id, ids: seq<Id>): seq<Id> {
    if ids == [] || x <= ids[0] then [x] + ids else [ids[0]] + Insert(x, ids[1..])
  }

  lemma {:induction false} InsertAdds(x: Id, ids: seq<Id>)
    ensures multiset(Insert(x, ids)) == multiset(ids) + multiset{x}
  {
    if ids != [] && ids[0] < x {
      InsertAdds(x, ids[1..]);
      assert ids == [ids[0]] + ids[1..];
    }
  }

  lemma {:induction false} InsertIsSorted(x: Id, ids: seq<Id>)
    requires Sorted(ids)
    ensures Sorted(Insert(x, ids))
  {
    if ids != [] && ids[0] < x {
      InsertIsSorted(x, ids[1..]);
      InsertAdds(x, ids[1..]);
      var rest := Insert(x, ids[1..]);
      forall k | 0 <= k < |rest|
        ensures ids[0] <= rest[k]
      {
        assert rest[k] in multiset(rest);
        assert rest[k] == x || rest[k] in ids[1..];
      }
    }
  }

  lemma {:induction false} SortIsSorted(ids: seq<Id>)
    ensures Sorted(SortIds(ids)) && multiset(SortIds(ids)) == multiset(ids)
  {
    if ids != [] {
      SortIsSorted(ids[1..]);
      InsertIsSorted(ids[0], SortIds(ids[1..]));
      InsertAdds(ids[0], SortIds(ids[1..]));
      assert ids == [ids[0]] + ids[1..];
    }
  }
}
