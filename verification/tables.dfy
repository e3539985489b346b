/** `SystemTableService`: the tables of a system. Any member may list,
    read, create, rename and delete tables; there is no role check, no name
    uniqueness and no plan limit here. */
module Tables {
  import opened Common
  import opened Entities
  import opened Access
  import opened Records

  /** The fields of `SystemTableRequest`. */
  datatype TableRequest = TableRequest(name: Option<string>, description: Option<string>)

  /** `SystemTableResponse`, without the creation time. */
  datatype TableResponse = TableResponse(
    id: Id, systemId: Id, name: Option<string>, description: Option<string>,
    fieldsCount: nat, recordsCount: nat)

  /** `countByTableId` on fields. */
  function FieldsOfTable(st: Store, tableId: Id): set<Id> {
    set f | f in st.fields && st.fields[f].tableId == Some(tableId)
  }

  /** `countByTableId` on records. */
  function RecordsOfTable(st: Store, tableId: Id): set<Id> {
    set r | r in st.records && st.records[r].tableId == Some(tableId)
  }

  /** `convertToResponse`: the table's columns and how many fields and
      records name it (a count query always returns a number, so the
      null-to-zero defaults never apply). */
  function Response(st: Store, tableId: Id): (r: TableResponse)
    requires tableId in st.tables
    ensures r.id == tableId && r.systemId == st.tables[tableId].systemId
    ensures r.name == st.tables[tableId].name && r.description == st.tables[tableId].description
    ensures r.fieldsCount == |FieldsOfTable(st, tableId)| && r.recordsCount == |RecordsOfTable(st, tableId)|
  {
    var t := st.tables[tableId];
    TableResponse(tableId, t.systemId, t.name, t.description,
                  |FieldsOfTable(st, tableId)|, |RecordsOfTable(st, tableId)|)
  }

  /** `findByIdAndSystemId`: the table, provided it belongs to the system. */
  predicate InSystem(st: Store, systemId: Id, tableId: Id) {
    tableId in st.tables && st.tables[tableId].systemId == systemId
  }

  /** `getAllTables`: the responses of the system's tables in creation
      order, which for an identity column is id order. */
  function ListTables(st: Store, systemId: Id, userId: Id): (r: Result<seq<TableResponse>>)
    ensures r.Ok? <==> OwnerOrMember(st, systemId, userId) == Ok(true)
    ensures r.Ok? ==> forall i :: 0 <= i < |r.value| ==> InSystem(st, systemId, r.value[i].id)
    ensures r.Ok? ==> forall t :: InSystem(st, systemId, t) ==> exists i :: 0 <= i < |r.value| && r.value[i].id == t
  {
    match Guard(OwnerOrMember(st, systemId, userId))
    case Fail(e) => Err(e)
    case Pass =>
      Ok(Responses(st, SystemTableIds(st, systemId)))
  }

  /** The ids of the system's tables, ascending. */
  function SystemTableIds(st: Store, systemId: Id): (ids: seq<Id>)
    ensures forall i :: 0 <= i < |ids| ==> InSystem(st, systemId, ids[i])
    ensures forall t :: InSystem(st, systemId, t) ==> t in ids
  {
    var ids := SortedKeys(set t | t in st.tables && st.tables[t].systemId == systemId);
    assert forall i :: 0 <= i < |ids| ==> InSystem(st, systemId, ids[i]) by {
      forall i | 0 <= i < |ids|
        ensures InSystem(st, systemId, ids[i])
      {
        assert ids[i] in ids;
      }
    }
    ids
  }

  /** The responses of the tables `ids`, in that order. */
  function Responses(st: Store, ids: seq<Id>): (rs: seq<TableResponse>)
    requires forall i :: 0 <= i < |ids| ==> ids[i] in st.tables
    ensures |rs| == |ids|
    ensures forall i :: 0 <= i < |ids| ==> rs[i] == Response(st, ids[i])
    ensures forall t :: t in ids ==> exists i :: 0 <= i < |rs| && rs[i].id == t
  {
    var rs := seq(|ids|, i requires 0 <= i < |ids| => Response(st, ids[i]));
    assert forall t :: t in ids ==> exists i :: 0 <= i < |rs| && rs[i].id == t by {
      forall t | t in ids
        ensures exists i :: 0 <= i < |rs| && rs[i].id == t
      {
        var i :| 0 <= i < |ids| && ids[i] == t;
        assert rs[i].id == t;
      }
    }
    rs
  }

  /** `getTableById`. */
  function GetTable(st: Store, systemId: Id, tableId: Id, userId: Id): (r: Result<TableResponse>)
    ensures r.Ok? <==> OwnerOrMember(st, systemId, userId) == Ok(true) && InSystem(st, systemId, tableId)
    ensures OwnerOrMember(st, systemId, userId) == Ok(true) && !InSystem(st, systemId, tableId)
      ==> r == Err(TableNotFound)
    ensures r.Ok? ==> r.value == Response(st, tableId)
  {
    match Guard(OwnerOrMember(st, systemId, userId))
    case Fail(e) => Err(e)
    case Pass =>
      if !InSystem(st, systemId, tableId) then Err(TableNotFound)
      else Ok(Response(st, tableId))
  }

  /** `createTable`: a new table with the request's name and description,
      whatever tables the system already has. */
  function CreateTable(st: Store, systemId: Id, req: TableRequest, userId: Id): (r: Result<(Store, Id)>)
    ensures r.Ok? <==> OwnerOrMember(st, systemId, userId) == Ok(true)
    ensures r.Ok? ==>
      var (st2, id) := r.value;
      && id !in st.tables
      && st2 == st.(tables := st.tables[id := Table(systemId, req.name, req.description)])
  {
    match Guard(OwnerOrMember(st, systemId, userId))
    case Fail(e) => Err(e)
    case Pass =>
      var id := Fresh(st.tables);
      Ok((st.(tables := st.tables[id := Table(systemId, req.name, req.description)]), id))
  }

  /** `updateTable`: replaces name and description, nulls included. */
  function UpdateTable(st: Store, systemId: Id, tableId: Id, req: TableRequest, userId: Id): (r: Result<Store>)
    ensures r.Ok? <==> OwnerOrMember(st, systemId, userId) == Ok(true) && InSystem(st, systemId, tableId)
    ensures r.Ok? ==>
      && r.value.tables.Keys == st.tables.Keys
      && r.value.tables[tableId].systemId == systemId
      && r.value.tables[tableId].name == req.name
      && r.value.tables[tableId].description == req.description
      && (forall t :: t in st.tables && t != tableId ==> r.value.tables[t] == st.tables[t])
      && r.value == st.(tables := r.value.tables)
  {
    match Guard(OwnerOrMember(st, systemId, userId))
    case Fail(e) => Err(e)
    case Pass =>
      if !InSystem(st, systemId, tableId) then Err(TableNotFound)
      else
        var t := st.tables[tableId];
        Ok(st.(tables := st.tables[tableId := t.(name := req.name, description := req.description)]))
  }

  /** A relationship that starts or ends at `tableId` (`deleteByTableId`). */
  predicate Touches(rel: Relationship, tableId: Id) {
    rel.fromTableId == tableId || rel.toTableId == tableId
  }

  /** `deleteTable`: drops every relationship from or to the table, then the
      table. Its fields, records and values stay behind. */
  function DeleteTable(st: Store, systemId: Id, tableId: Id, userId: Id): (r: Result<Store>)
    ensures r.Ok? <==> OwnerOrMember(st, systemId, userId) == Ok(true) && InSystem(st, systemId, tableId)
    ensures r.Ok? ==>
      && r.value.tables == st.tables - {tableId}
      && (forall id :: id in r.value.relationships <==>
            id in st.relationships && !Touches(st.relationships[id], tableId))
      && (forall id :: id in r.value.relationships ==> r.value.relationships[id] == st.relationships[id])
      && r.value == st.(tables := r.value.tables, relationships := r.value.relationships)
  {
    match Guard(OwnerOrMember(st, systemId, userId))
    case Fail(e) => Err(e)
    case Pass =>
      if !InSystem(st, systemId, tableId) then Err(TableNotFound)
      else
        var rels := map id | id in st.relationships && !Touches(st.relationships[id], tableId)
                           :: st.relationships[id];
        Ok(st.(tables := st.tables - {tableId}, relationships := rels))
  }

  /** A created table reads back with the request's name and description,
      and the caller who created it may read it. */
  lemma CreateThenGet(st: Store, systemId: Id, req: TableRequest, userId: Id)
    requires CreateTable(st, systemId, req, userId).Ok?
    ensures var (st2, id) := CreateTable(st, systemId, req, userId).value;
      && GetTable(st2, systemId, id, userId).Ok?
      && GetTable(st2, systemId, id, userId).value.name == req.name
      && GetTable(st2, systemId, id, userId).value.description == req.description
  {
    var (st2, id) := CreateTable(st, systemId, req, userId).value;
    assert OwnerOrMember(st2, systemId, userId) == OwnerOrMember(st, systemId, userId);
  }

  /** Updating twice with the same request is updating once. */
  lemma UpdateTableIdempotent(st: Store, systemId: Id, tableId: Id, req: TableRequest, userId: Id)
    requires UpdateTable(st, systemId, tableId, req, userId).Ok?
    ensures UpdateTable(UpdateTable(st, systemId, tableId, req, userId).value, systemId, tableId, req, userId)
         == UpdateTable(st, systemId, tableId, req, userId)
  {
    var st2 := UpdateTable(st, systemId, tableId, req, userId).value;
    assert OwnerOrMember(st2, systemId, userId) == OwnerOrMember(st, systemId, userId);
    assert st2.tables[tableId := st2.tables[tableId].(name := req.name, description := req.description)] == st2.tables;
  }

  /** After a table is deleted no relation field of any table points at it
      any more, so no later record write can be checked against it. */
  lemma DeleteTableLeavesNoTargets(st: Store, systemId: Id, tableId: Id, userId: Id, t: Id, f: Id)
    requires DeleteTable(st, systemId, tableId, userId).Ok?
    ensures var st2 := DeleteTable(st, systemId, tableId, userId).value;
      f in TableTargets(st2, t) ==> t != tableId && TableTargets(st2, t)[f] != tableId
  {
    var st2 := DeleteTable(st, systemId, tableId, userId).value;
    var p := (rel: Relationship) => rel.fromTableId == t;
    if f in TableTargets(st2, t) {
      var id := FieldRelMap(st2.relationships, p)[f];
      assert id in st2.relationships && p(st2.relationships[id]);
      assert !Touches(st2.relationships[id], tableId);
    }
  }
}
