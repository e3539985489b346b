/** The record store of `SystemDataService`: fields, records and their
    values, the reference check on relation fields, the all-or-nothing
    record creation, the partial update and the cascading delete.

    A request's values arrive as a JSON object, i.e. a map with distinct
    keys iterated in insertion order; it is modelled as an association list
    with distinct keys. A missing (null) map behaves exactly like an empty
    one in every operation here, so it is the empty list. */
module Records {
  import opened Common
  import opened Text
  import opened Entities
  import opened Access
  import opened Plans
  import opened Query

  // ---------------------------------------------------------------------
  // Request values
  // ---------------------------------------------------------------------

  /** No key occurs twice. */
  predicate DistinctKeys<K(==), V>(es: seq<(K, V)>) {
    forall i, j :: 0 <= i < j < |es| ==> es[i].0 != es[j].0
  }

  /** `containsKey`. */
  predicate HasKey<K(==), V>(es: seq<(K, V)>, k: K) {
    exists i :: 0 <= i < |es| && es[i].0 == k
  }

  /** Values of a table-level request, by field id (`getValues()`); `None`
      is a JSON null. */
  type Entries = seq<(Id, Option<string>)>

  /** Values of a system-level request, by field name (`getFieldValues()`). */
  type NamedEntries = seq<(string, Option<string>)>

  // ---------------------------------------------------------------------
  // Which relationship governs a field
  // ---------------------------------------------------------------------

  /** Ids of the relationships satisfying `p`, ascending: the order the
      repository lists them in. */
  function RelationshipIds(rels: map<Id, Relationship>, p: Relationship -> bool): (ids: seq<Id>)
    ensures Increasing(ids)
    ensures forall i :: 0 <= i < |ids| ==> ids[i] in rels && p(rels[ids[i]])
    ensures forall id :: id in rels && p(rels[id]) ==> id in ids
  {
    var all := SortedKeys(rels.Keys);
    FilterKeepsIncreasing(all, id => id in rels && p(rels[id]));
    Filter(all, id => id in rels && p(rels[id]))
  }

  /** The from-field of the relationship with id `id`. */
  function FromFieldOf(rels: map<Id, Relationship>): Id -> Id {
    id => if id in rels then rels[id].fromFieldId else 0
  }

  /** `fieldRelMap`: the relationships satisfying `p` put into a map by
      from-field, one after the other, so when several share a from-field
      only one of them is kept (see `LastRelationshipWins`). */
  function FieldRelMap(rels: map<Id, Relationship>, p: Relationship -> bool): (m: map<Id, Id>)
    ensures forall f :: f in m ==> m[f] in rels && rels[m[f]].fromFieldId == f && p(rels[m[f]])
    ensures forall id :: id in rels && p(rels[id]) ==> rels[id].fromFieldId in m
  {
    var ids := RelationshipIds(rels, p);
    var m := IndexBy(ids, FromFieldOf(rels));
    assert forall f :: f in m ==> m[f] in ids by {
      forall f | f in m
        ensures m[f] in ids
      {
        var i :| IsLastWithKey(ids, FromFieldOf(rels), f, i) && m[f] == ids[i];
      }
    }
    assert forall id :: id in rels && p(rels[id]) ==> FromFieldOf(rels)(id) == rels[id].fromFieldId;
    m
  }

  /** Of several relationships sharing a from-field, the one with the
      greatest id is the one enforced. */
  lemma LastRelationshipWins(rels: map<Id, Relationship>, p: Relationship -> bool, id: Id)
    requires id in rels && p(rels[id])
    ensures id <= FieldRelMap(rels, p)[rels[id].fromFieldId]
  {
    var ids := RelationshipIds(rels, p);
    var key := FromFieldOf(rels);
    assert FieldRelMap(rels, p) == IndexBy(ids, key);
    ListedKeepsGreatest(ids, key, id);
    assert key(id) == rels[id].fromFieldId;
  }

  /** `IndexByKeepsGreatest` for an element given by value. */
  lemma ListedKeepsGreatest<K>(ids: seq<Id>, key: Id -> K, id: Id)
    requires Increasing(ids) && id in ids
    ensures key(id) in IndexBy(ids, key) && id <= IndexBy(ids, key)[key(id)]
  {
    var j :| 0 <= j < |ids| && ids[j] == id;
    IndexByKeepsGreatest(ids, key, j);
  }

  /** What validation reads of `fieldRelMap`: the target table of the
      relationship that governs each from-field. `toFieldId` is not part
      of it. */
  function RelationTargets(rels: map<Id, Relationship>, p: Relationship -> bool): (t: map<Id, Id>)
    ensures t.Keys == FieldRelMap(rels, p).Keys
    ensures forall f :: f in t ==> t[f] == rels[FieldRelMap(rels, p)[f]].toTableId
  {
    var m := FieldRelMap(rels, p);
    map f | f in m :: rels[m[f]].toTableId
  }

  // ---------------------------------------------------------------------
  // The reference check
  // ---------------------------------------------------------------------

  /** `value` is the id of a record of table `tableId`: the value is read as
      the referenced record's primary key, nothing else. */
  predicate Resolves(records: map<Id, Record>, value: string, tableId: Id) {
    ParseInt(value).Some? && ParseInt(value).value in records
    && records[ParseInt(value).value].tableId == Some(tableId)
  }

  /** The entry is subject to the check: its field is governed by a
      relationship and its value is neither null nor empty. */
  predicate Checked(targets: map<Id, Id>, fieldId: Id, value: Option<string>) {
    fieldId in targets && value.Some? && value.value != ""
  }

  /** The check of one entry. A numeral outside the `int` range or with
      other characters is an invalid value; a missing record or one of
      another table is rejected; a referenced record without a table makes
      `getTableId().equals(..)` dereference null. */
  function CheckEntry(records: map<Id, Record>, targets: map<Id, Id>, fieldId: Id, value: Option<string>): (r: Outcome)
    ensures r.Pass? <==> !Checked(targets, fieldId, value) || Resolves(records, value.value, targets[fieldId])
    ensures Checked(targets, fieldId, value) && ParseInt(value.value).None? ==> r == Fail(InvalidRelationValue)
    ensures Checked(targets, fieldId, value) && ParseInt(value.value).Some? && ParseInt(value.value).value !in records
      ==> r == Fail(RelatedRecordNotFound)
    ensures r.Fail? ==> r.error in {InvalidRelationValue, RelatedRecordNotFound, NullValue, WrongTargetTable}
  {
    if !Checked(targets, fieldId, value) then Pass
    else
      match ParseInt(value.value)
      case None => Fail(InvalidRelationValue)
      case Some(t) =>
        if t !in records then Fail(RelatedRecordNotFound)
        else
          match records[t].tableId
          case None => Fail(NullValue)
          case Some(tt) => Need(tt == targets[fieldId], WrongTargetTable)
  }

  /** The checks of all entries in order; the first failure is reported. */
  function CheckEntries(records: map<Id, Record>, targets: map<Id, Id>, es: Entries): (r: Outcome)
    ensures r.Pass? <==> forall i :: 0 <= i < |es| ==> CheckEntry(records, targets, es[i].0, es[i].1).Pass?
    ensures r.Fail? ==> exists i :: 0 <= i < |es| && CheckEntry(records, targets, es[i].0, es[i].1) == r
    decreases |es|
  {
    if es == [] then Pass
    else
      match CheckEntry(records, targets, es[0].0, es[0].1)
      case Fail(e) => Fail(e)
      case Pass =>
        var rest := CheckEntries(records, targets, es[1..]);
        assert forall i :: 1 <= i < |es| ==> es[i] == es[1..][i - 1];
        rest
  }

  /** A request of one entry passes or fails as that entry does. */
  lemma CheckSingleEntry(records: map<Id, Record>, targets: map<Id, Id>, fieldId: Id, value: Option<string>)
    ensures CheckEntries(records, targets, [(fieldId, value)]) == CheckEntry(records, targets, fieldId, value)
  {
    assert [(fieldId, value)][1..] == [];
  }

  // ---------------------------------------------------------------------
  // Writing value rows
  // ---------------------------------------------------------------------

  /** Writes the entries as value rows of record `rid`. With `nullDeletes`
      a null entry removes the row (the update path); without it the null
      is stored (the create path). Keys not named by an entry keep their
      rows. */
  function WriteRows(values: map<(Id, Id), Option<string>>, rid: Id, es: Entries, nullDeletes: bool)
    : (r: map<(Id, Id), Option<string>>)
    requires DistinctKeys(es)
    ensures Merged(values, r, rid, es, nullDeletes)
    decreases |es|
  {
    if es == [] then values
    else
      var f := es[0].0;
      var v := es[0].1;
      var m := if v.None? && nullDeletes then values - {(rid, f)} else values[(rid, f) := v];
      var r := WriteRows(m, rid, es[1..], nullDeletes);
      MergedCons(values, m, r, rid, es, nullDeletes);
      r
  }

  /** Writing the first entry, then the rest, writes them all. */
  lemma MergedCons(values: map<(Id, Id), Option<string>>, m: map<(Id, Id), Option<string>>,
                   r: map<(Id, Id), Option<string>>, rid: Id, es: Entries, nullDeletes: bool)
    requires es != [] && DistinctKeys(es)
    requires m == if es[0].1.None? && nullDeletes then values - {(rid, es[0].0)} else values[(rid, es[0].0) := es[0].1]
    requires Merged(m, r, rid, es[1..], nullDeletes)
    ensures Merged(values, r, rid, es, nullDeletes)
  {
    assert forall i :: 1 <= i < |es| ==> es[i] == es[1..][i - 1];
    assert !HasKey(es[1..], es[0].0);
    assert forall g :: HasKey(es, g) <==> g == es[0].0 || HasKey(es[1..], g);
  }

  /** `after` is `before` with the entries written as rows of record `rid`:
      each entry's row holds its value, or is absent for a null when
      `nullDeletes`; rows of other records and fields are untouched, and
      no other row appears. */
  predicate Merged(before: map<(Id, Id), Option<string>>, after: map<(Id, Id), Option<string>>, rid: Id,
                   es: Entries, nullDeletes: bool) {
    && (forall i :: 0 <= i < |es| && (es[i].1.Some? || !nullDeletes) ==>
          (rid, es[i].0) in after && after[(rid, es[i].0)] == es[i].1)
    && (forall i :: 0 <= i < |es| && es[i].1.None? && nullDeletes ==> (rid, es[i].0) !in after)
    && (forall k :: k in before && !(k.0 == rid && HasKey(es, k.1)) ==> k in after && after[k] == before[k])
    && (forall k :: k in after ==> (k in before && after[k] == before[k]) || (k.0 == rid && HasKey(es, k.1)))
  }

  /** Every value row belongs to an existing record: the state the services
      keep, since rows are only written for a record that exists and are
      deleted with it. */
  predicate RowsHaveRecords(st: Store) {
    forall k :: k in st.values ==> k.0 in st.records
  }

  /** Some entry would add a second row for a (record, field) pair that
      already has one: the unique constraint of `SystemRecordValue`. */
  predicate Clashes(st: Store, rid: Id, es: Entries) {
    exists i :: 0 <= i < |es| && (rid, es[i].0) in st.values
  }

  /** Saves `rec` under a fresh id and then one row per entry, nulls
      included. */
  function InsertRecord(st: Store, rec: Record, es: Entries): (r: Result<(Store, Id)>)
    requires DistinctKeys(es)
    ensures r.Ok? <==> !Clashes(st, Fresh(st.records), es)
    ensures r.Err? ==> r.error == UniqueViolation
    ensures RowsHaveRecords(st) ==> r.Ok?
    ensures r.Ok? ==>
      var (st2, rid) := r.value;
      && rid == Fresh(st.records) && rid !in st.records
      && st2.records == st.records[rid := rec]
      && (forall i :: 0 <= i < |es| ==> (rid, es[i].0) in st2.values && st2.values[(rid, es[i].0)] == es[i].1)
      && (forall k :: k in st.values ==> k in st2.values && st2.values[k] == st.values[k])
      && (forall k :: k in st2.values ==> (k in st.values || (k.0 == rid && HasKey(es, k.1))))
      && st2 == st.(records := st2.records, values := st2.values)
  {
    var rid := Fresh(st.records);
    if Clashes(st, rid, es) then Err(UniqueViolation)
    else Ok((st.(records := st.records[rid := rec], values := WriteRows(st.values, rid, es, false)), rid))
  }

  /** After a successful insert every row still belongs to a record, and
      the new record holds exactly one row per entry. */
  lemma InsertRecordRows(st: Store, rec: Record, es: Entries)
    requires DistinctKeys(es) && RowsHaveRecords(st)
    ensures InsertRecord(st, rec, es).Ok?
    ensures var (st2, rid) := InsertRecord(st, rec, es).value;
      && RowsHaveRecords(st2)
      && forall f :: (rid, f) in st2.values <==> HasKey(es, f)
  {
  }

  // ---------------------------------------------------------------------
  // Creating records
  // ---------------------------------------------------------------------

  /** The relationships that govern the fields of table `tableId`
      (`findByFromTableId`). */
  function TableTargets(st: Store, tableId: Id): map<Id, Id> {
    RelationTargets(st.relationships, (rel: Relationship) => rel.fromTableId == tableId)
  }

  /** The records the checks of `createRecordForTable` see: the store's
      records and the one just inserted. */
  function RecordsWithNew(st: Store, rec: Record): map<Id, Record> {
    st.records[Fresh(st.records) := rec]
  }

  /** `createRecordForTable`: the table must exist and its system's owner's
      plan must admit another record. The record is inserted first and the
      reference checks then run against the store that already holds it,
      so a value may name the new record itself; one row is written per
      entry, nulls included, for whatever field ids the request names. The
      method is transactional: a failing check leaves nothing behind. */
  function CreateRecordForTable(st: Store, tableId: Id, values: Entries, userId: Id): (r: Result<(Store, Id)>)
    requires DistinctKeys(values)
    ensures tableId !in st.tables ==> r == Err(TableNotFound)
    ensures r.Ok? <==>
      && tableId in st.tables
      && ValidateForSystem(st, st.tables[tableId].systemId, RecordsPerSystem).Pass?
      && (var rec := Record(st.tables[tableId].systemId, Some(tableId), userId);
          forall i :: 0 <= i < |values| ==>
            CheckEntry(RecordsWithNew(st, rec), TableTargets(st, tableId), values[i].0, values[i].1).Pass?)
      && !Clashes(st, Fresh(st.records), values)
    ensures r.Ok? ==> r == InsertRecord(st, Record(st.tables[tableId].systemId, Some(tableId), userId), values)
  {
    if tableId !in st.tables then Err(TableNotFound)
    else
      var systemId := st.tables[tableId].systemId;
      var rec := Record(systemId, Some(tableId), userId);
      match ValidateForSystem(st, systemId, RecordsPerSystem)
      case Fail(e) => Err(e)
      case Pass =>
        match CheckEntries(RecordsWithNew(st, rec), TableTargets(st, tableId), values)
        case Fail(e) => Err(e)
        case Pass => InsertRecord(st, rec, values)
  }

  /** Adding one record to a system raises its record count by one. */
  lemma RecordCountAfterAdd(st: Store, st2: Store, rid: Id, rec: Record)
    requires rid !in st.records && st2.records == st.records[rid := rec]
    ensures RecordCount(st2, rec.systemId) == RecordCount(st, rec.systemId) + 1
  {
    var before := set id | id in st.records && st.records[id].systemId == rec.systemId;
    var after := set id | id in st2.records && st2.records[id].systemId == rec.systemId;
    assert after == before + {rid};
  }

  /** A successful creation never takes a system past its plan's record
      limit. */
  lemma CreateRecordRespectsLimit(st: Store, tableId: Id, values: Entries, userId: Id)
    requires DistinctKeys(values)
    requires CreateRecordForTable(st, tableId, values, userId).Ok?
    ensures var systemId := st.tables[tableId].systemId;
      var st2 := CreateRecordForTable(st, tableId, values, userId).value.0;
      var limit := PlanOfUser(st, st.systems[systemId].ownerId).value.maxRecordsPerSystem;
      && RecordCount(st2, systemId) == RecordCount(st, systemId) + 1
      && (limit.Some? ==> RecordCount(st2, systemId) <= limit.value)
  {
    var systemId := st.tables[tableId].systemId;
    var rec := Record(systemId, Some(tableId), userId);
    var r := CreateRecordForTable(st, tableId, values, userId);
    assert ValidateForSystem(st, systemId, RecordsPerSystem).Pass?;
    assert r == InsertRecord(st, rec, values);
    var (st2, rid) := r.value;
    RecordCountAfterAdd(st, st2, rid, rec);
  }

  /** A value naming a record of the relationship's target table passes,
      whatever the rest of the store. */
  lemma IdOfTargetRecordPasses(records: map<Id, Record>, targets: map<Id, Id>, fieldId: Id, rid: Id)
    requires IsInt32(rid) && fieldId in targets
    requires rid in records && records[rid].tableId == Some(targets[fieldId])
    ensures CheckEntry(records, targets, fieldId, Some(IntToString(rid))).Pass?
  {
    ParseIntOfIntToString(rid);
  }

  /** The conditions under which `createRecordForTable` succeeds, as a
      step for proofs about particular requests. */
  lemma CreateRecordForTableSucceeds(st: Store, tableId: Id, values: Entries, userId: Id)
    requires DistinctKeys(values)
    requires tableId in st.tables
    requires ValidateForSystem(st, st.tables[tableId].systemId, RecordsPerSystem).Pass?
    requires CheckEntries(RecordsWithNew(st, Record(st.tables[tableId].systemId, Some(tableId), userId)),
                          TableTargets(st, tableId), values) == Pass
    requires RowsHaveRecords(st)
    ensures CreateRecordForTable(st, tableId, values, userId).Ok?
  {
  }

  /** The failure of the first failing check is the failure of
      `createRecordForTable`, as a step for proofs about particular
      requests. */
  lemma CreateRecordForTableFails(st: Store, tableId: Id, values: Entries, userId: Id, e: Error)
    requires DistinctKeys(values)
    requires tableId in st.tables
    requires ValidateForSystem(st, st.tables[tableId].systemId, RecordsPerSystem).Pass?
    requires CheckEntries(RecordsWithNew(st, Record(st.tables[tableId].systemId, Some(tableId), userId)),
                          TableTargets(st, tableId), values) == Fail(e)
    ensures CreateRecordForTable(st, tableId, values, userId) == Err(e)
  {
  }

  /** A reference from a new record's field to the id that record will get
      passes the check run against the records with the new one added. */
  lemma SelfReferencePasses(st: Store, tableId: Id, fieldId: Id, rec: Record)
    requires rec.tableId == Some(tableId)
    requires fieldId in TableTargets(st, tableId) && TableTargets(st, tableId)[fieldId] == tableId
    requires IsInt32(Fresh(st.records))
    ensures CheckEntries(RecordsWithNew(st, rec), TableTargets(st, tableId),
                         [(fieldId, Some(IntToString(Fresh(st.records))))]) == Pass
  {
    IdOfTargetRecordPasses(RecordsWithNew(st, rec), TableTargets(st, tableId), fieldId, Fresh(st.records));
    CheckSingleEntry(RecordsWithNew(st, rec), TableTargets(st, tableId), fieldId, Some(IntToString(Fresh(st.records))));
  }

  /** A record may reference itself: the check of `createRecordForTable`
      sees the record it has just inserted. */
  lemma CreateRecordForTableSelfReference(st: Store, tableId: Id, fieldId: Id, userId: Id)
    requires tableId in st.tables
    requires ValidateForSystem(st, st.tables[tableId].systemId, RecordsPerSystem).Pass?
    requires RowsHaveRecords(st)
    requires fieldId in TableTargets(st, tableId) && TableTargets(st, tableId)[fieldId] == tableId
    requires IsInt32(Fresh(st.records))
    ensures CreateRecordForTable(st, tableId, [(fieldId, Some(IntToString(Fresh(st.records))))], userId).Ok?
  {
    var rec := Record(st.tables[tableId].systemId, Some(tableId), userId);
    var values := [(fieldId, Some(IntToString(Fresh(st.records))))];
    SelfReferencePasses(st, tableId, fieldId, rec);
    CreateRecordForTableSucceeds(st, tableId, values, userId);
  }

  /** The fields a system-level request can name: every field of the
      system, once, ordered by `orderIndex` (see `FieldIdsByOrderSorted`).
      The database leaves the order of ties open; here they come by id. */
  function FieldIdsByOrder(fields: map<Id, Field>, p: Field -> bool): (ids: seq<Id>)
    ensures forall i :: 0 <= i < |ids| ==> ids[i] in fields && p(fields[ids[i]])
    ensures forall id :: id in fields && p(fields[id]) ==> id in ids
  {
    var all := SortedKeys(fields.Keys);
    var q := id => id in fields && p(fields[id]);
    var sel := Filter(all, q);
    var ids := SortBy(sel, id => if id in fields then fields[id].orderIndex else 0);
    SameMembers(ids, sel);
    assert forall id :: id in fields && p(fields[id]) ==> id in ids by {
      forall id | id in fields && p(fields[id])
        ensures id in ids
      {
        assert id in all;
        var i :| 0 <= i < |all| && all[i] == id;
        assert q(all[i]);
        assert id in sel;
        var j :| 0 <= j < |sel| && sel[j] == id;
      }
    }
    assert forall i :: 0 <= i < |ids| ==> ids[i] in fields && p(fields[ids[i]]) by {
      forall i | 0 <= i < |ids|
        ensures ids[i] in fields && p(fields[ids[i]])
      {
        var j :| 0 <= j < |sel| && sel[j] == ids[i];
        assert q(sel[j]);
      }
    }
    ids
  }

  /** The listed fields come once each, in non-decreasing `orderIndex`. */
  lemma FieldIdsByOrderSorted(fields: map<Id, Field>, p: Field -> bool)
    ensures var ids := FieldIdsByOrder(fields, p);
      && NoDuplicates(ids)
      && forall i, j :: 0 <= i < j < |ids| ==> fields[ids[i]].orderIndex <= fields[ids[j]].orderIndex
  {
    var all := SortedKeys(fields.Keys);
    var q := id => id in fields && p(fields[id]);
    var key := id => if id in fields then fields[id].orderIndex else 0;
    var sel := Filter(all, q);
    var ids := SortBy(sel, key);
    assert ids == FieldIdsByOrder(fields, p);
    SameMembers(ids, sel);
    FilterKeepsIncreasing(all, q);
    IncreasingNoDuplicates(sel);
    PermutationNoDuplicates(ids, sel);
    forall i, j | 0 <= i < j < |ids|
      ensures fields[ids[i]].orderIndex <= fields[ids[j]].orderIndex
    {
      assert key(ids[i]) <= key(ids[j]);
    }
  }

  /** The name of the field with id `id`. */
  function NameOf(fields: map<Id, Field>): Id -> string {
    id => if id in fields then fields[id].name else ""
  }

  /** `fieldNameToId`: field ids by name; of several fields with one name
      the last in `orderIndex` order is kept (see `NameIndexKeepsLast`). */
  function NameIndex(fields: map<Id, Field>, p: Field -> bool): (m: map<string, Id>)
    ensures forall n :: n in m ==> m[n] in fields && p(fields[m[n]]) && fields[m[n]].name == n
    ensures forall id :: id in fields && p(fields[id]) ==> fields[id].name in m
  {
    var ids := FieldIdsByOrder(fields, p);
    var m := IndexBy(ids, NameOf(fields));
    assert forall n :: n in m ==> m[n] in ids by {
      forall n | n in m
        ensures m[n] in ids
      {
        var i :| IsLastWithKey(ids, NameOf(fields), n, i) && m[n] == ids[i];
      }
    }
    assert forall id :: id in fields && p(fields[id]) ==> NameOf(fields)(id) == fields[id].name;
    m
  }

  /** A name stands for the last field with that name in `orderIndex`
      order, whose `orderIndex` is therefore the greatest among them. */
  lemma NameIndexKeepsLast(fields: map<Id, Field>, p: Field -> bool, n: string)
    requires n in NameIndex(fields, p)
    ensures var ids := FieldIdsByOrder(fields, p);
      var last := NameIndex(fields, p)[n];
      && (exists i :: IsLastWithKey(ids, NameOf(fields), n, i) && last == ids[i])
      && (forall id :: id in fields && p(fields[id]) && fields[id].name == n ==>
            fields[id].orderIndex <= fields[last].orderIndex)
  {
    var ids := FieldIdsByOrder(fields, p);
    var m := IndexBy(ids, NameOf(fields));
    assert m == NameIndex(fields, p);
    FieldIdsByOrderSorted(fields, p);
    var i :| IsLastWithKey(ids, NameOf(fields), n, i) && m[n] == ids[i];
    forall id | id in fields && p(fields[id]) && fields[id].name == n
      ensures fields[id].orderIndex <= fields[m[n]].orderIndex
    {
      LastNamedIsLatest(fields, ids, n, id, m[n]);
    }
  }

  /** In a list ordered by `orderIndex`, the last field with a name comes
      no earlier in that order than any other field with it. */
  lemma LastNamedIsLatest(fields: map<Id, Field>, ids: seq<Id>, n: string, id: Id, last: Id)
    requires forall i :: 0 <= i < |ids| ==> ids[i] in fields
    requires forall i, j :: 0 <= i < j < |ids| ==> fields[ids[i]].orderIndex <= fields[ids[j]].orderIndex
    requires id in ids && id in fields && fields[id].name == n
    requires exists i :: IsLastWithKey(ids, NameOf(fields), n, i) && last == ids[i]
    ensures fields[id].orderIndex <= fields[last].orderIndex
  {
    var i :| IsLastWithKey(ids, NameOf(fields), n, i) && last == ids[i];
    var k :| 0 <= k < |ids| && ids[k] == id;
    assert NameOf(fields)(ids[k]) == n;
  }

  /** No two keys share a value. */
  predicate Injective<K, V(==)>(m: map<K, V>) {
    forall a, b :: a in m && b in m && m[a] == m[b] ==> a == b
  }

  /** `(index[es[j].0], es[j].1)` is entry `j` under its field id. */
  predicate ResolvedFrom(index: map<string, Id>, es: NamedEntries, j: int, e: (Id, Option<string>)) {
    0 <= j < |es| && es[j].0 in index && e == (index[es[j].0], es[j].1)
  }

  /** `e` is some entry of `es` under its field id. */
  ghost predicate ResolvedFromSome(index: map<string, Id>, es: NamedEntries, e: (Id, Option<string>)) {
    exists j :: ResolvedFrom(index, es, j, e)
  }

  /** The entries whose name is a known field, keyed by that field's id;
      the others are dropped. */
  function ResolveNames(index: map<string, Id>, es: NamedEntries): (r: Entries)
    requires DistinctKeys(es) && Injective(index)
    ensures DistinctKeys(r)
    ensures forall i :: 0 <= i < |r| ==> ResolvedFromSome(index, es, r[i])
    ensures forall j :: 0 <= j < |es| && es[j].0 in index ==> (index[es[j].0], es[j].1) in r
    decreases |es|
  {
    if es == [] then []
    else
      assert forall j :: 1 <= j < |es| ==> es[j] == es[1..][j - 1];
      var rest := ResolveNames(index, es[1..]);
      assert forall i :: 0 <= i < |rest| ==> ResolvedFromSome(index, es, rest[i]) by {
        forall i | 0 <= i < |rest|
          ensures ResolvedFromSome(index, es, rest[i])
        {
          var j :| ResolvedFrom(index, es[1..], j, rest[i]);
          assert es[j + 1] == es[1..][j];
          assert ResolvedFrom(index, es, j + 1, rest[i]);
        }
      }
      if es[0].0 in index then
        var r := [(index[es[0].0], es[0].1)] + rest;
        assert forall i :: 0 <= i < |rest| ==> rest[i].0 != index[es[0].0] by {
          forall i | 0 <= i < |rest|
            ensures rest[i].0 != index[es[0].0]
          {
            var j :| ResolvedFrom(index, es[1..], j, rest[i]);
            assert es[j + 1].0 != es[0].0;
          }
        }
        ConsDistinct((index[es[0].0], es[0].1), rest);
        assert ResolvedFrom(index, es, 0, r[0]);
        assert forall i :: 1 <= i < |r| ==> r[i] == rest[i - 1];
        r
      else rest
  }

  /** An entry whose key no entry of `rest` has keeps the keys distinct. */
  lemma ConsDistinct<K, V>(e: (K, V), rest: seq<(K, V)>)
    requires DistinctKeys(rest)
    requires forall i :: 0 <= i < |rest| ==> rest[i].0 != e.0
    ensures DistinctKeys([e] + rest)
  {
    var r := [e] + rest;
    forall i, j | 0 <= i < j < |r|
      ensures r[i].0 != r[j].0
    {
      assert r[j] == rest[j - 1];
      if i > 0 {
        assert r[i] == rest[i - 1];
      }
    }
  }

  /** The relationships of a whole system (`findBySystemId`). */
  function SystemTargets(st: Store, systemId: Id): map<Id, Id> {
    RelationTargets(st.relationships, (rel: Relationship) => rel.systemId == systemId)
  }

  /** The field ids a system-level request's names denote. */
  function SystemFieldIndex(st: Store, systemId: Id): (m: map<string, Id>)
    ensures Injective(m)
    ensures forall n :: n in m ==> m[n] in st.fields && st.fields[m[n]].systemId == systemId && st.fields[m[n]].name == n
    ensures forall id :: id in st.fields && st.fields[id].systemId == systemId ==> st.fields[id].name in m
  {
    NameIndex(st.fields, (f: Field) => f.systemId == systemId)
  }

  /** System-level `createRecord`: requires the `create_record`
      permission; checks the references before inserting, so a value can
      never name the record being created; stores rows only for names of
      fields of the system and silently drops the others. No plan limit is
      checked on this path. */
  function CreateRecord(st: Store, systemId: Id, values: NamedEntries, userId: Id): (r: Result<(Store, Id)>)
    requires DistinctKeys(values)
    ensures r.Ok? ==> HasPermission(st, systemId, userId, CreateRecords) == Ok(true)
    ensures HasPermission(st, systemId, userId, CreateRecords) == Ok(false) ==> r == Err(PermissionDenied)
    ensures systemId !in st.systems ==> r == Err(SystemNotFound)
    ensures r.Ok? ==>
      var rows := ResolveNames(SystemFieldIndex(st, systemId), values);
      && CheckEntries(st.records, SystemTargets(st, systemId), rows).Pass?
      && r == InsertRecord(st, Record(systemId, None, userId), rows)
    ensures var rows := ResolveNames(SystemFieldIndex(st, systemId), values);
      HasPermission(st, systemId, userId, CreateRecords) == Ok(true)
      && CheckEntries(st.records, SystemTargets(st, systemId), rows).Pass?
      ==> r == InsertRecord(st, Record(systemId, None, userId), rows)
    ensures var rows := ResolveNames(SystemFieldIndex(st, systemId), values);
      r.Ok? <==>
        && HasPermission(st, systemId, userId, CreateRecords) == Ok(true)
        && CheckEntries(st.records, SystemTargets(st, systemId), rows).Pass?
        && !Clashes(st, Fresh(st.records), rows)
  {
    match Guard(HasPermission(st, systemId, userId, CreateRecords))
    case Fail(e) => Err(e)
    case Pass =>
      var rows := ResolveNames(SystemFieldIndex(st, systemId), values);
      match CheckEntries(st.records, SystemTargets(st, systemId), rows)
      case Fail(e) => Err(e)
      case Pass => InsertRecord(st, Record(systemId, None, userId), rows)
  }

  /** Inserting resolved entries stores a row for each entry whose name the
      index knows, under its field id, and no row for any other name. */
  lemma InsertResolvedRows(st: Store, rec: Record, index: map<string, Id>, values: NamedEntries)
    requires DistinctKeys(values) && Injective(index)
    requires InsertRecord(st, rec, ResolveNames(index, values)).Ok?
    ensures var (st2, rid) := InsertRecord(st, rec, ResolveNames(index, values)).value;
      && (forall j :: 0 <= j < |values| && values[j].0 in index ==>
            (rid, index[values[j].0]) in st2.values && st2.values[(rid, index[values[j].0])] == values[j].1)
      && (forall k :: k in st2.values && k !in st.values ==>
            k.0 == rid && exists j :: 0 <= j < |values| && values[j].0 in index && index[values[j].0] == k.1)
  {
    ResolvedRowsStored(st, rec, index, values);
    OnlyResolvedRowsAdded(st, rec, index, values);
  }

  /** Every entry whose name the index knows is stored under its field. */
  lemma ResolvedRowsStored(st: Store, rec: Record, index: map<string, Id>, values: NamedEntries)
    requires DistinctKeys(values) && Injective(index)
    requires InsertRecord(st, rec, ResolveNames(index, values)).Ok?
    ensures var (st2, rid) := InsertRecord(st, rec, ResolveNames(index, values)).value;
      forall j :: 0 <= j < |values| && values[j].0 in index ==>
        (rid, index[values[j].0]) in st2.values && st2.values[(rid, index[values[j].0])] == values[j].1
  {
    var rows := ResolveNames(index, values);
    var (st2, rid) := InsertRecord(st, rec, rows).value;
    forall j | 0 <= j < |values| && values[j].0 in index
      ensures (rid, index[values[j].0]) in st2.values && st2.values[(rid, index[values[j].0])] == values[j].1
    {
      var i :| 0 <= i < |rows| && rows[i] == (index[values[j].0], values[j].1);
    }
  }

  /** No row is added but for an entry whose name the index knows. */
  lemma OnlyResolvedRowsAdded(st: Store, rec: Record, index: map<string, Id>, values: NamedEntries)
    requires DistinctKeys(values) && Injective(index)
    requires InsertRecord(st, rec, ResolveNames(index, values)).Ok?
    ensures var (st2, rid) := InsertRecord(st, rec, ResolveNames(index, values)).value;
      forall k :: k in st2.values && k !in st.values ==>
        k.0 == rid && exists j :: 0 <= j < |values| && values[j].0 in index && index[values[j].0] == k.1
  {
    var rows := ResolveNames(index, values);
    var (st2, rid) := InsertRecord(st, rec, rows).value;
    forall k | k in st2.values && k !in st.values
      ensures k.0 == rid && exists j :: 0 <= j < |values| && values[j].0 in index && index[values[j].0] == k.1
    {
      ResolvedKeyNamed(index, values, k.1);
    }
  }

  /** A field id the resolved entries use is the id of some entry's name. */
  lemma ResolvedKeyNamed(index: map<string, Id>, values: NamedEntries, f: Id)
    requires DistinctKeys(values) && Injective(index)
    requires HasKey(ResolveNames(index, values), f)
    ensures exists j :: 0 <= j < |values| && values[j].0 in index && index[values[j].0] == f
  {
    var rows := ResolveNames(index, values);
    var i :| 0 <= i < |rows| && rows[i].0 == f;
    var j :| ResolvedFrom(index, values, j, rows[i]);
  }

  /** What a successful system-level creation stores: a row for every
      entry whose name is a field of the system, under that field's id, and
      no row for any other name. */
  lemma CreateRecordDropsUnknownNames(st: Store, systemId: Id, values: NamedEntries, userId: Id)
    requires DistinctKeys(values)
    requires CreateRecord(st, systemId, values, userId).Ok?
    ensures var (st2, rid) := CreateRecord(st, systemId, values, userId).value;
      var index := SystemFieldIndex(st, systemId);
      && (forall j :: 0 <= j < |values| && values[j].0 in index ==>
            (rid, index[values[j].0]) in st2.values && st2.values[(rid, index[values[j].0])] == values[j].1)
      && (forall k :: k in st2.values && k !in st.values ==>
            k.0 == rid && exists j :: 0 <= j < |values| && values[j].0 in index && index[values[j].0] == k.1)
  {
    InsertResolvedRows(st, Record(systemId, None, userId), SystemFieldIndex(st, systemId), values);
  }

  /** The id a new record will get names no record yet. */
  lemma FreshIdNotFound(records: map<Id, Record>, targets: map<Id, Id>, fieldId: Id)
    requires fieldId in targets && IsInt32(Fresh(records))
    ensures CheckEntry(records, targets, fieldId, Some(IntToString(Fresh(records)))) == Fail(RelatedRecordNotFound)
  {
    ParseIntOfIntToString(Fresh(records));
  }

  /** A single named entry resolves to itself under its field id. */
  lemma ResolveOne(index: map<string, Id>, name: string, v: Option<string>)
    requires Injective(index) && name in index
    ensures ResolveNames(index, [(name, v)]) == [(index[name], v)]
  {
    assert [(name, v)][1..] == [];
  }

  /** The system-level path checks references before inserting: a value
      naming the id the new record would get is rejected unless that id is
      already a record. */
  lemma CreateRecordChecksBeforeInsert(st: Store, systemId: Id, name: string, userId: Id)
    requires name in SystemFieldIndex(st, systemId)
    requires SystemFieldIndex(st, systemId)[name] in SystemTargets(st, systemId)
    requires IsInt32(Fresh(st.records))
    ensures CreateRecord(st, systemId, [(name, Some(IntToString(Fresh(st.records))))], userId).Err?
  {
    var index := SystemFieldIndex(st, systemId);
    var v := Some(IntToString(Fresh(st.records)));
    ResolveOne(index, name, v);
    FreshIdNotFound(st.records, SystemTargets(st, systemId), index[name]);
  }

  // ---------------------------------------------------------------------
  // Updating a record
  // ---------------------------------------------------------------------

  /** `val == null || val.toString().trim().isEmpty()`. */
  predicate BlankValue(v: Option<string>) {
    v.None? || Trim(v.value) == ""
  }

  /** Some entry names a required field of table `tableId` with a blank
      value. Only fields present in the request are checked. */
  predicate MissingRequired(st: Store, tableId: Option<Id>, es: Entries) {
    exists i :: 0 <= i < |es| && es[i].0 in st.fields && st.fields[es[i].0].tableId == tableId
      && st.fields[es[i].0].required && BlankValue(es[i].1)
  }

  /** The relationships that govern the fields of a record's table; a
      record without a table has none, since `fromTableId` is never null. */
  function TargetsOf(st: Store, tableId: Option<Id>): map<Id, Id> {
    RelationTargets(st.relationships, (rel: Relationship) => Some(rel.fromTableId) == tableId)
  }

  /** `updateRecord(recordId, ...)`: no permission is checked. A required
      field of the record's table that the request sends blank is rejected,
      and so is a failing reference. Then each entry is merged: a null
      deletes the row, anything else inserts or overwrites it; fields the
      request does not name keep their rows. */
  function UpdateRecord(st: Store, rid: Id, values: Entries): (r: Result<Store>)
    requires DistinctKeys(values)
    ensures rid !in st.records ==> r == Err(RecordNotFound)
    ensures r.Ok? <==> (rid in st.records
      && !MissingRequired(st, st.records[rid].tableId, values)
      && forall i :: 0 <= i < |values| ==>
           CheckEntry(st.records, TargetsOf(st, st.records[rid].tableId), values[i].0, values[i].1).Pass?)
    ensures rid in st.records && MissingRequired(st, st.records[rid].tableId, values) ==> r == Err(RequiredFieldMissing)
    ensures r.Ok? ==> Merged(st.values, r.value.values, rid, values, true) && r.value == st.(values := r.value.values)
  {
    if rid !in st.records then Err(RecordNotFound)
    else
      var tableId := st.records[rid].tableId;
      if MissingRequired(st, tableId, values) then Err(RequiredFieldMissing)
      else
        match CheckEntries(st.records, TargetsOf(st, tableId), values)
        case Fail(e) => Err(e)
        case Pass => Ok(st.(values := WriteRows(st.values, rid, values, true)))
  }

  /** A blank value is exactly a null or one `trim` empties completely. */
  lemma BlankValueMeansBlank(v: Option<string>)
    ensures BlankValue(v) <==> v.None? || IsBlank(v.value)
  {
    if v.Some? {
      TrimEmptyIffBlank(v.value);
    }
  }

  /** An update with no entries changes nothing. */
  lemma EmptyUpdateKeepsRows(st: Store, rid: Id)
    requires rid in st.records
    ensures UpdateRecord(st, rid, []) == Ok(st)
  {
    assert !MissingRequired(st, st.records[rid].tableId, []);
  }

  // ---------------------------------------------------------------------
  // Record responses
  // ---------------------------------------------------------------------

  /** The field ids of the value rows of record `rid`, ascending: the order
      `findByRecordId` is taken to list them in. */
  function RowFields(values: map<(Id, Id), Option<string>>, rid: Id): (fs: seq<Id>)
    ensures forall f :: f in fs <==> (rid, f) in values
  {
    SortedKeys(set k | k in values && k.0 == rid :: k.1)
  }

  /** The (name, value) pairs of the rows on the fields `fs` that `names`
      knows, in order; rows of other fields are skipped. */
  function NamedRows(values: map<(Id, Id), Option<string>>, rid: Id, names: map<Id, string>, fs: seq<Id>)
    : (r: seq<(string, Option<string>)>)
    requires forall i :: 0 <= i < |fs| ==> (rid, fs[i]) in values
    ensures forall i :: 0 <= i < |r| ==> NamedValue(values, rid, names, r[i].0, r[i].1)
    ensures forall f :: f in fs && f in names ==> (names[f], values[(rid, f)]) in r
    decreases |fs|
  {
    if fs == [] then []
    else
      var rest := NamedRows(values, rid, names, fs[1..]);
      assert forall f :: f in fs ==> f == fs[0] || f in fs[1..];
      if fs[0] in names then [(names[fs[0]], values[(rid, fs[0])])] + rest else rest
  }

  /** Some field known to `names` under name `n` has a row of record `rid`
      holding `v`. */
  ghost predicate NamedValue(values: map<(Id, Id), Option<string>>, rid: Id, names: map<Id, string>,
                             n: string, v: Option<string>) {
    exists f :: f in names && names[f] == n && (rid, f) in values && values[(rid, f)] == v
  }

  /** The `fieldValues` of a record response: each row whose field is
      known to `names` is put under the field's name, so when two known
      fields share a name the later row wins. */
  function FieldValues(values: map<(Id, Id), Option<string>>, rid: Id, names: map<Id, string>)
    : (m: map<string, Option<string>>)
    ensures forall n :: n in m ==> NamedValue(values, rid, names, n, m[n])
    ensures forall f :: f in names && (rid, f) in values ==> names[f] in m
  {
    var rows := NamedRows(values, rid, names, RowFields(values, rid));
    var key := (e: (string, Option<string>)) => e.0;
    var idx := IndexBy(rows, key);
    assert forall n :: n in idx ==> idx[n] in rows && idx[n].0 == n by {
      forall n | n in idx
        ensures idx[n] in rows && idx[n].0 == n
      {
        var i :| IsLastWithKey(rows, key, n, i) && idx[n] == rows[i];
      }
    }
    assert forall f :: f in names && (rid, f) in values ==> (names[f], values[(rid, f)]) in rows;
    map n | n in idx :: idx[n].1
  }

  /** When no two known fields share a name, the response holds exactly
      the record's value on each known field, under the field's name. */
  lemma FieldValuesExact(values: map<(Id, Id), Option<string>>, rid: Id, names: map<Id, string>, f: Id)
    requires Injective(names) && f in names && (rid, f) in values
    ensures names[f] in FieldValues(values, rid, names)
    ensures FieldValues(values, rid, names)[names[f]] == values[(rid, f)]
  {
    var m := FieldValues(values, rid, names);
    var g :| g in names && names[g] == names[f] && (rid, g) in values && values[(rid, g)] == m[names[f]];
  }

  /** The names of the fields satisfying `p` (`fieldIdToName`). */
  function FieldNames(fields: map<Id, Field>, p: Field -> bool): (names: map<Id, string>)
    ensures forall f :: f in names <==> f in fields && p(fields[f])
    ensures forall f :: f in names ==> names[f] == fields[f].name
  {
    map f | f in fields && p(fields[f]) :: fields[f].name
  }

  /** `convertToRecordResponse(record)`: the values of the record on the
      fields of its table (`findByTableId`; a record without a table sees
      the fields without one), keyed by field name. */
  function RecordResponse(st: Store, rid: Id): (m: map<string, Option<string>>)
    requires rid in st.records
    ensures forall n :: n in m ==> NamedValue(st.values, rid, TableFieldNames(st, st.records[rid].tableId), n, m[n])
    ensures forall f :: (f in st.fields && st.fields[f].tableId == st.records[rid].tableId && (rid, f) in st.values
                         ==> st.fields[f].name in m)
  {
    FieldValues(st.values, rid, TableFieldNames(st, st.records[rid].tableId))
  }

  function TableFieldNames(st: Store, tableId: Option<Id>): map<Id, string> {
    FieldNames(st.fields, (fd: Field) => fd.tableId == tableId)
  }

  /** `convertToRecordResponse(record, systemId)`: the same with the fields
      of a whole system, table-level ones included. */
  function SystemRecordResponse(st: Store, rid: Id, systemId: Id): (m: map<string, Option<string>>)
    ensures forall n :: n in m ==> NamedValue(st.values, rid, SystemFieldNames(st, systemId), n, m[n])
    ensures forall f :: (f in st.fields && st.fields[f].systemId == systemId && (rid, f) in st.values
                         ==> st.fields[f].name in m)
  {
    FieldValues(st.values, rid, SystemFieldNames(st, systemId))
  }

  function SystemFieldNames(st: Store, systemId: Id): map<Id, string> {
    FieldNames(st.fields, (fd: Field) => fd.systemId == systemId)
  }

  /** A record response shows only values on current fields of the
      record's table, each under that field's name; with distinct names in
      the table, every such value is shown. */
  lemma RecordResponseShowsTableFields(st: Store, rid: Id, n: string, f: Id)
    requires rid in st.records
    ensures n in RecordResponse(st, rid) ==> exists g ::
      && g in st.fields && st.fields[g].tableId == st.records[rid].tableId && st.fields[g].name == n
      && (rid, g) in st.values && st.values[(rid, g)] == RecordResponse(st, rid)[n]
    ensures Injective(TableFieldNames(st, st.records[rid].tableId))
      && f in st.fields && st.fields[f].tableId == st.records[rid].tableId && (rid, f) in st.values
      ==> RecordResponse(st, rid)[st.fields[f].name] == st.values[(rid, f)]
  {
    var names := TableFieldNames(st, st.records[rid].tableId);
    if n in RecordResponse(st, rid) {
      var g :| g in names && names[g] == n && (rid, g) in st.values && st.values[(rid, g)] == RecordResponse(st, rid)[n];
    }
    if Injective(names) && f in st.fields && st.fields[f].tableId == st.records[rid].tableId && (rid, f) in st.values {
      FieldValuesExact(st.values, rid, names, f);
    }
  }
}
