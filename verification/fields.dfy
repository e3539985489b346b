/** Field definitions of `SystemDataService`: the system-level
    `createField`, `updateField` and `deleteField`, each guarded by the
    `manage_fields` permission, and the table-level `createFieldForTable`,
    which checks the plan's field limit instead and declares a relationship
    for a `relation` field. Options are kept inside the field, in request
    order; they are separate rows in the schema, deleted and re-inserted
    together with the field. */
module Fields {
  import opened Common
  import opened Text
  import opened Entities
  import opened Access
  import opened Plans
  import opened Records

  /** `SystemFieldRequest`, with the related-table ids the table-level
      create reads. A null option list behaves like an empty one; `None`
      in it is a null element. */
  datatype FieldRequest = FieldRequest(
    name: Option<string>,
    fieldType: Option<string>,
    required: Option<bool>,
    orderIndex: Option<int>,
    options: seq<Option<string>>,
    relatedTableId: Option<Id>,
    relatedDisplayFieldId: Option<Id>)

  /** No element is null. */
  predicate AllPresent(xs: seq<Option<string>>) {
    forall i :: 0 <= i < |xs| ==> xs[i].Some?
  }

  /** The elements of a list without nulls. */
  function Present(xs: seq<Option<string>>): (r: seq<string>)
    requires AllPresent(xs)
    ensures |r| == |xs|
    ensures forall i :: 0 <= i < |xs| ==> Some(r[i]) == xs[i]
  {
    seq(|xs|, i requires 0 <= i < |xs| => xs[i].value)
  }

  /** `r` is `s` with its leading and trailing blanks removed, and no
      more. */
  ghost predicate IsTrimOf(s: string, r: string) {
    (r == [] || (r[0] > ' ' && r[|r| - 1] > ' ')) && exists j :: StripsTo(s, r, j)
  }

  /** Each element trimmed (`optionValue.trim()`). */
  function TrimAll(xs: seq<string>): (r: seq<string>)
    ensures |r| == |xs|
    ensures forall i :: 0 <= i < |xs| ==> IsTrimOf(xs[i], r[i])
  {
    var r := seq(|xs|, i requires 0 <= i < |xs| => Trim(xs[i]));
    assert forall i :: 0 <= i < |xs| ==> IsTrimOf(xs[i], r[i]) by {
      forall i | 0 <= i < |xs|
        ensures IsTrimOf(xs[i], r[i])
      {
        assert r[i] == Trim(xs[i]);
      }
    }
    r
  }

  // ---------------------------------------------------------------------
  // System-level fields
  // ---------------------------------------------------------------------

  /** `createField`: the caller needs `manage_fields`. The field is saved
      with no table, `required` false and `orderIndex` 0 when absent; a
      null name or type violates a NOT NULL column at the save. Options are
      saved trimmed after it, and a null option throws in `trim`. No plan
      limit is checked. */
  function CreateField(st: Store, systemId: Id, req: FieldRequest, userId: Id): (r: Result<(Store, Id)>)
    ensures r.Ok? <==> (HasPermission(st, systemId, userId, ManageFields) == Ok(true)
      && req.name.Some? && req.fieldType.Some? && AllPresent(req.options))
    ensures systemId !in st.systems ==> r == Err(SystemNotFound)
    ensures HasPermission(st, systemId, userId, ManageFields) == Ok(true) ==> r == AddSystemField(st, systemId, req)
  {
    match Guard(HasPermission(st, systemId, userId, ManageFields))
    case Fail(e) => Err(e)
    case Pass =>
      AddSystemField(st, systemId, req)
  }

  /** The body `createField` shares with `SystemService.createField`: the
      field is saved with no table, `required` false and `orderIndex` 0 when
      absent; a null name or type violates a NOT NULL column at the save.
      Options are saved trimmed after it, and a null option throws in
      `trim`. */
  function AddSystemField(st: Store, systemId: Id, req: FieldRequest): (r: Result<(Store, Id)>)
    ensures r.Ok? <==> req.name.Some? && req.fieldType.Some? && AllPresent(req.options)
    ensures (req.name.None? || req.fieldType.None?) ==> r == Err(NotNullViolation)
    ensures req.name.Some? && req.fieldType.Some? && !AllPresent(req.options) ==> r == Err(NullValue)
    ensures r.Ok? ==>
      var (st2, id) := r.value;
      && id !in st.fields && st2.fields.Keys == st.fields.Keys + {id}
      && st2 == st.(fields := st.fields[id := st2.fields[id]])
      && var f := st2.fields[id];
         && f.systemId == systemId && f.tableId.None?
         && f.name == req.name.value && f.fieldType == req.fieldType.value
         && f.required == (req.required == Some(true))
         && f.orderIndex == req.orderIndex.GetOr(0)
         && |f.options| == |req.options|
         && (forall i :: 0 <= i < |f.options| ==> IsTrimOf(req.options[i].value, f.options[i]))
  {
    if req.name.None? || req.fieldType.None? then Err(NotNullViolation)
    else if !AllPresent(req.options) then Err(NullValue)
    else
      var id := Fresh(st.fields);
      var f := Field(systemId, None, req.name.value, req.fieldType.value, req.required.GetOr(false),
                     req.orderIndex.GetOr(0), TrimAll(Present(req.options)));
      Ok((st.(fields := st.fields[id := f]), id))
  }

  /** `updateField`: the caller needs `manage_fields`, and the field must
      exist and belong to the system. Name, type, `required`, `orderIndex`
      and options are replaced as in `createField`; the field keeps its
      system and its table. The options are re-saved before the field, so
      a null option throws before a null name or type reaches the save. */
  function UpdateField(st: Store, systemId: Id, fieldId: Id, req: FieldRequest, userId: Id): (r: Result<Store>)
    ensures r.Ok? <==> (HasPermission(st, systemId, userId, ManageFields) == Ok(true)
      && fieldId in st.fields && st.fields[fieldId].systemId == systemId
      && req.name.Some? && req.fieldType.Some? && AllPresent(req.options))
    ensures HasPermission(st, systemId, userId, ManageFields) == Ok(true) && fieldId !in st.fields
      ==> r == Err(FieldNotFound)
    ensures (HasPermission(st, systemId, userId, ManageFields) == Ok(true) && fieldId in st.fields
      && st.fields[fieldId].systemId != systemId) ==> r == Err(NotInSystem)
    ensures r.Ok? ==>
      && fieldId in r.value.fields
      && r.value == st.(fields := st.fields[fieldId := r.value.fields[fieldId]])
      && r.value.fields[fieldId].systemId == st.fields[fieldId].systemId
      && r.value.fields[fieldId].tableId == st.fields[fieldId].tableId
      && r.value.fields[fieldId].name == req.name.value
      && r.value.fields[fieldId].fieldType == req.fieldType.value
      && r.value.fields[fieldId].required == (req.required == Some(true))
      && r.value.fields[fieldId].orderIndex == req.orderIndex.GetOr(0)
      && |r.value.fields[fieldId].options| == |req.options|
      && (forall i :: 0 <= i < |req.options| ==> IsTrimOf(req.options[i].value, r.value.fields[fieldId].options[i]))
    ensures (HasPermission(st, systemId, userId, ManageFields) == Ok(true) && fieldId in st.fields
             && st.fields[fieldId].systemId == systemId && !AllPresent(req.options)) ==> r == Err(NullValue)
    ensures (HasPermission(st, systemId, userId, ManageFields) == Ok(true) && fieldId in st.fields
             && st.fields[fieldId].systemId == systemId && AllPresent(req.options)
             && (req.name.None? || req.fieldType.None?)) ==> r == Err(NotNullViolation)
  {
    match Guard(HasPermission(st, systemId, userId, ManageFields))
    case Fail(e) => Err(e)
    case Pass =>
      if fieldId !in st.fields then Err(FieldNotFound)
      else
        var current := st.fields[fieldId];
        if current.systemId != systemId then Err(NotInSystem)
        else if !AllPresent(req.options) then Err(NullValue)
        else if req.name.None? || req.fieldType.None? then Err(NotNullViolation)
        else
          var f := Field(current.systemId, current.tableId, req.name.value, req.fieldType.value,
                         req.required.GetOr(false), req.orderIndex.GetOr(0), TrimAll(Present(req.options)));
          Ok(st.(fields := st.fields[fieldId := f]))
  }

  /** `deleteField`: the caller needs `manage_fields`, and the field must
      exist and belong to the system. The field and its options go; value
      rows on it and relationships naming it are left as they are. */
  function DeleteField(st: Store, systemId: Id, fieldId: Id, userId: Id): (r: Result<Store>)
    ensures r.Ok? <==> (HasPermission(st, systemId, userId, ManageFields) == Ok(true)
      && fieldId in st.fields && st.fields[fieldId].systemId == systemId)
    ensures r.Ok? ==> r.value == st.(fields := r.value.fields)
    ensures r.Ok? ==> forall id :: id in r.value.fields <==> id in st.fields && id != fieldId
  {
    match Guard(HasPermission(st, systemId, userId, ManageFields))
    case Fail(e) => Err(e)
    case Pass =>
      if fieldId !in st.fields then Err(FieldNotFound)
      else if st.fields[fieldId].systemId != systemId then Err(NotInSystem)
      else Ok(st.(fields := st.fields - {fieldId}))
  }

  /** Deleting a field just created restores the store. */
  lemma CreateThenDeleteField(st: Store, systemId: Id, req: FieldRequest, userId: Id)
    requires CreateField(st, systemId, req, userId).Ok?
    ensures var (st2, id) := CreateField(st, systemId, req, userId).value;
      DeleteField(st2, systemId, id, userId) == Ok(st)
  {
    var (st2, id) := CreateField(st, systemId, req, userId).value;
    assert st2.fields - {id} == st.fields;
  }

  /** An update changes nothing a later delete of the field would keep:
      deleting after updating is deleting. */
  lemma UpdateThenDeleteField(st: Store, systemId: Id, fieldId: Id, req: FieldRequest, userId: Id)
    requires UpdateField(st, systemId, fieldId, req, userId).Ok?
    ensures DeleteField(UpdateField(st, systemId, fieldId, req, userId).value, systemId, fieldId, userId)
         == DeleteField(st, systemId, fieldId, userId)
  {
    var st2 := UpdateField(st, systemId, fieldId, req, userId).value;
    assert st2.fields - {fieldId} == st.fields - {fieldId};
  }

  // ---------------------------------------------------------------------
  // Table-level fields
  // ---------------------------------------------------------------------

  /** The orderIndexes of the fields of table `tableId`. */
  function OrderIndexes(fields: map<Id, Field>, tableId: Id): set<int> {
    set id | id in fields && fields[id].tableId == Some(tableId) :: fields[id].orderIndex
  }

  /** `findMaxOrderIndexByTableId`: null for a table without fields. */
  function MaxOrderIndex(fields: map<Id, Field>, tableId: Id): (r: Option<int>)
    ensures r.None? <==> forall id :: id in fields ==> fields[id].tableId != Some(tableId)
    ensures r.Some? ==> r.value in OrderIndexes(fields, tableId)
    ensures r.Some? ==> forall id :: id in fields && fields[id].tableId == Some(tableId) ==> fields[id].orderIndex <= r.value
  {
    var s := OrderIndexes(fields, tableId);
    if s == {} then
      assert forall id :: id in fields && fields[id].tableId == Some(tableId) ==> fields[id].orderIndex in s;
      None
    else
      var m := MaxOf(s);
      assert forall id :: id in fields && fields[id].tableId == Some(tableId) ==> fields[id].orderIndex in s;
      Some(m)
  }

  /** The orderIndex of a new table field: the one given, else one past
      the table's greatest in `int` arithmetic, else 0. */
  function NextOrderIndex(fields: map<Id, Field>, tableId: Id, given: Option<int>): int {
    if given.Some? then given.value
    else
      match MaxOrderIndex(fields, tableId)
      case None => 0
      case Some(m) => WrapInt32(m + 1)
  }

  /** A relationship saved under a fresh id: the earlier ones are kept and
      exactly that id is added. */
  function AddRelationship(rels: map<Id, Relationship>, rel: Relationship): (r: map<Id, Relationship>)
    ensures Fresh(rels) !in rels
    ensures r.Keys == rels.Keys + {Fresh(rels)}
    ensures forall k :: k in rels ==> r[k] == rels[k]
    ensures r[Fresh(rels)] == rel
  {
    rels[Fresh(rels) := rel]
  }

  /** `createFieldForTable`. The table must exist and the owner's plan must
      admit another field in its system; the caller is not consulted. A
      null name, type or `required` violates a NOT NULL column at the save,
      and so does a null option, since options are saved untrimmed. A
      `relation` field needs a related table and then declares a
      one-to-many relationship from the new field to that table, with
      display field 0 when none is given. The method is transactional: a
      failure leaves nothing behind. */
  function CreateFieldForTable(st: Store, tableId: Id, req: FieldRequest, userId: Id): (r: Result<(Store, Id)>)
    ensures tableId !in st.tables ==> r == Err(TableNotFound)
    ensures r.Ok? <==>
      && tableId in st.tables
      && ValidateForSystem(st, st.tables[tableId].systemId, FieldsPerSystem).Pass?
      && req.name.Some? && req.fieldType.Some? && req.required.Some? && AllPresent(req.options)
      && (req.fieldType.value == "relation" ==> req.relatedTableId.Some?)
    ensures r.Ok? ==>
      var (st2, id) := r.value;
      && id !in st.fields && st2.fields.Keys == st.fields.Keys + {id}
      && (forall x :: x in st.fields ==> st2.fields[x] == st.fields[x])
      && st2.fields[id].tableId == Some(tableId)
      && st2.fields[id].systemId == st.tables[tableId].systemId
      && st2.fields[id].name == req.name.value
      && st2.fields[id].fieldType == req.fieldType.value
      && st2.fields[id].required == req.required.value
      && (req.orderIndex.Some? ==> st2.fields[id].orderIndex == req.orderIndex.value)
      && st2.fields[id].options == Present(req.options)
      && st2 == st.(fields := st2.fields, relationships := st2.relationships)
    ensures r.Ok? && req.fieldType.value != "relation" ==> r.value.0.relationships == st.relationships
    ensures r.Ok? && req.fieldType.value == "relation" ==>
      var (st2, id) := r.value;
      var rid := Fresh(st.relationships);
      && st2.relationships.Keys == st.relationships.Keys + {rid}
      && (forall k :: k in st.relationships ==> st2.relationships[k] == st.relationships[k])
      && st2.relationships[rid].systemId == st.tables[tableId].systemId
      && st2.relationships[rid].fromTableId == tableId && st2.relationships[rid].fromFieldId == id
      && st2.relationships[rid].toTableId == req.relatedTableId.value
      && st2.relationships[rid].toFieldId == req.relatedDisplayFieldId.GetOr(0)
      && st2.relationships[rid].relationType == OneToMany
  {
    if tableId !in st.tables then Err(TableNotFound)
    else
      var systemId := st.tables[tableId].systemId;
      match ValidateForSystem(st, systemId, FieldsPerSystem)
      case Fail(e) => Err(e)
      case Pass =>
        if req.name.None? || req.fieldType.None? || req.required.None? then Err(NotNullViolation)
        else if !AllPresent(req.options) then Err(NotNullViolation)
        else if req.fieldType.value == "relation" && req.relatedTableId.None? then Err(RelatedTableRequired)
        else
          var id := Fresh(st.fields);
          var f := Field(systemId, Some(tableId), req.name.value, req.fieldType.value, req.required.value,
                         NextOrderIndex(st.fields, tableId, req.orderIndex), Present(req.options));
          var st1 := st.(fields := st.fields[id := f]);
          if req.fieldType.value == "relation" then
            var rel := Relationship(systemId, tableId, id, req.relatedTableId.value,
                                    req.relatedDisplayFieldId.GetOr(0), OneToMany);
            Ok((st1.(relationships := AddRelationship(st.relationships, rel)), id))
          else Ok((st1, id))
  }

  /** Adding one field to a system raises its field count by one. */
  lemma FieldCountAfterAdd(st: Store, st2: Store, id: Id, f: Field)
    requires id !in st.fields && st2.fields == st.fields[id := f]
    ensures FieldCount(st2, f.systemId) == FieldCount(st, f.systemId) + 1
  {
    var a := set x | x in st.fields && st.fields[x].systemId == f.systemId;
    var b := set x | x in st2.fields && st2.fields[x].systemId == f.systemId;
    assert b == a + {id};
  }

  /** A table field is only added while the system is below its plan's
      field limit, so a successful create never takes the count past it. */
  lemma CreateFieldForTableRespectsLimit(st: Store, tableId: Id, req: FieldRequest, userId: Id)
    requires CreateFieldForTable(st, tableId, req, userId).Ok?
    ensures var systemId := st.tables[tableId].systemId;
      var owner := st.systems[systemId].ownerId;
      var limit := PlanOfUser(st, owner).value.maxFieldsPerSystem;
      var st2 := CreateFieldForTable(st, tableId, req, userId).value.0;
      limit.Some? ==> FieldCount(st2, systemId) <= limit.value
  {
    var (st2, id) := CreateFieldForTable(st, tableId, req, userId).value;
    AddedFieldWithinLimit(st, st2.fields, id);
  }

  /** One field added to a system the plan check admitted keeps the system
      within its field limit. */
  lemma AddedFieldWithinLimit(st: Store, fields: map<Id, Field>, id: Id)
    requires id !in st.fields && fields.Keys == st.fields.Keys + {id}
    requires forall x :: x in st.fields ==> fields[x] == st.fields[x]
    requires ValidateForSystem(st, fields[id].systemId, FieldsPerSystem).Pass?
    ensures var systemId := fields[id].systemId;
      var limit := PlanOfUser(st, st.systems[systemId].ownerId).value.maxFieldsPerSystem;
      limit.Some? ==> FieldCount(st.(fields := fields), systemId) <= limit.value
  {
    var systemId := fields[id].systemId;
    FieldLimitPassed(st, systemId);
    OneMoreKey(st.fields, fields, id);
    FieldCountAfterAdd(st, st.(fields := fields), id, fields[id]);
  }

  /** A system that passed the field-limit check is below its plan's limit. */
  lemma FieldLimitPassed(st: Store, systemId: Id)
    requires ValidateForSystem(st, systemId, FieldsPerSystem).Pass?
    ensures systemId in st.systems && PlanOfUser(st, st.systems[systemId].ownerId).Ok?
    ensures var limit := PlanOfUser(st, st.systems[systemId].ownerId).value.maxFieldsPerSystem;
      limit.Some? ==> FieldCount(st, systemId) < limit.value
  {
    var plan := PlanOfUser(st, st.systems[systemId].ownerId).value;
    assert WithinLimit(LimitOf(plan, FieldsPerSystem), CountOf(st, systemId, FieldsPerSystem));
  }

  /** A map that agrees with `m` and has exactly one more key `k` is `m`
      updated at `k`. */
  lemma OneMoreKey(m: map<Id, Field>, m2: map<Id, Field>, k: Id)
    requires k !in m && m2.Keys == m.Keys + {k}
    requires forall x :: x in m ==> m2[x] == m[x]
    ensures m2 == m[k := m2[k]]
  {
    var added := m[k := m2[k]];
    assert added.Keys == m2.Keys;
    assert forall x :: x in m2 ==> m2[x] == added[x];
  }

  /** Who asks makes no difference: the table-level create checks no
      permission. */
  lemma CreateFieldForTableIgnoresCaller(st: Store, tableId: Id, req: FieldRequest, u1: Id, u2: Id)
    ensures CreateFieldForTable(st, tableId, req, u1) == CreateFieldForTable(st, tableId, req, u2)
  {
  }

  /** Without a given orderIndex the new field goes after every field of
      its table, unless the greatest orderIndex is the largest `int`; the
      first field of a table gets 0. */
  lemma OrderIndexAppends(st: Store, tableId: Id, req: FieldRequest, userId: Id)
    requires CreateFieldForTable(st, tableId, req, userId).Ok? && req.orderIndex.None?
    requires forall x :: x in st.fields && st.fields[x].tableId == Some(tableId) ==> st.fields[x].orderIndex < IntMax
    requires forall x :: x in st.fields ==> IsInt32(st.fields[x].orderIndex)
    ensures var (st2, id) := CreateFieldForTable(st, tableId, req, userId).value;
      && (forall x :: x in st.fields && st.fields[x].tableId == Some(tableId) ==>
            st.fields[x].orderIndex < st2.fields[id].orderIndex)
      && ((forall x :: x in st.fields ==> st.fields[x].tableId != Some(tableId)) ==> st2.fields[id].orderIndex == 0)
  {
    CreatedOrderIndex(st, tableId, req, userId);
    NextOrderIndexAbove(st.fields, tableId);
  }

  /** The orderIndex a successful table-level create stores. */
  lemma CreatedOrderIndex(st: Store, tableId: Id, req: FieldRequest, userId: Id)
    requires CreateFieldForTable(st, tableId, req, userId).Ok?
    ensures var (st2, id) := CreateFieldForTable(st, tableId, req, userId).value;
      st2.fields[id].orderIndex == NextOrderIndex(st.fields, tableId, req.orderIndex)
  {
  }

  /** The orderIndex chosen when none is given lies above every one of the
      table, unless the greatest is the largest `int`; it is 0 for a table
      without fields. */
  lemma NextOrderIndexAbove(fields: map<Id, Field>, tableId: Id)
    requires forall x :: x in fields && fields[x].tableId == Some(tableId) ==> fields[x].orderIndex < IntMax
    requires forall x :: x in fields ==> IsInt32(fields[x].orderIndex)
    ensures forall x :: x in fields && fields[x].tableId == Some(tableId) ==>
      fields[x].orderIndex < NextOrderIndex(fields, tableId, None)
    ensures (forall x :: x in fields ==> fields[x].tableId != Some(tableId)) ==> NextOrderIndex(fields, tableId, None) == 0
  {
    var m := MaxOrderIndex(fields, tableId);
    if m.Some? {
      var x :| x in fields && fields[x].tableId == Some(tableId) && fields[x].orderIndex == m.value;
      assert IsInt32(m.value + 1);
    }
  }

  /** When the greatest orderIndex of the table is the largest `int`, the
      next one wraps around to the smallest. */
  lemma OrderIndexWraps(fields: map<Id, Field>, tableId: Id)
    requires MaxOrderIndex(fields, tableId) == Some(IntMax)
    ensures NextOrderIndex(fields, tableId, None) == IntMin
  {
  }

  /** A `relation` field declares exactly one new relationship, from the
      new field of this table to the related table, and it is the one the
      reference check then enforces for the field, whatever relationships
      on that field id existed before. A field of any other type declares
      none. */
  lemma RelationFieldDeclaresRelationship(st: Store, tableId: Id, req: FieldRequest, userId: Id)
    requires CreateFieldForTable(st, tableId, req, userId).Ok?
    ensures var (st2, id) := CreateFieldForTable(st, tableId, req, userId).value;
      && (req.fieldType.value != "relation" ==> st2.relationships == st.relationships)
      && (req.fieldType.value == "relation" ==>
            && id in TableTargets(st2, tableId)
            && TableTargets(st2, tableId)[id] == req.relatedTableId.value)
  {
    var (st2, id) := CreateFieldForTable(st, tableId, req, userId).value;
    if req.fieldType.value == "relation" {
      var rel := Relationship(st.tables[tableId].systemId, tableId, id, req.relatedTableId.value,
                              req.relatedDisplayFieldId.GetOr(0), OneToMany);
      assert st2.relationships == st.relationships[Fresh(st.relationships) := rel];
      NewRelationshipGoverns(st.relationships, rel, (r: Relationship) => r.fromTableId == tableId);
    }
  }

  /** A relationship added under a fresh id is the one that governs its
      from-field, since it comes last in id order. */
  lemma NewRelationshipGoverns(rels: map<Id, Relationship>, rel: Relationship, p: Relationship -> bool)
    requires p(rel)
    ensures var rels2 := rels[Fresh(rels) := rel];
      && rel.fromFieldId in RelationTargets(rels2, p)
      && RelationTargets(rels2, p)[rel.fromFieldId] == rel.toTableId
  {
    var rid := Fresh(rels);
    var rels2 := rels[rid := rel];
    LastRelationshipWins(rels2, p, rid);
    var m := FieldRelMap(rels2, p);
    assert m[rel.fromFieldId] in rels2 && m[rel.fromFieldId] >= rid;
    assert m[rel.fromFieldId] == rid;
  }
}
