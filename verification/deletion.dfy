/** The cascading delete of `SystemDataService.deleteRecord`. Only records
    and their value rows change while it runs; the relationships, systems
    and memberships it reads stay as they were when it began, so the
    recursion works on the two changing maps alone and reads the rest from
    the store it was given. */
module Deletion {
  import opened Common
  import opened Text
  import opened Entities
  import opened Access
  import opened Records

  /** The part of the store a delete changes. */
  datatype Rows = Rows(records: map<Id, Record>, values: map<(Id, Id), Option<string>>)

  function RowsOf(st: Store): Rows {
    Rows(st.records, st.values)
  }

  /** Every value row belongs to an existing record. */
  predicate Linked(rows: Rows) {
    forall k :: k in rows.values ==> k.0 in rows.records
  }

  /** The ids of the records whose value on field `fieldId` is the id `rid`
      written out (`findByFieldIdAndValue(fieldId, String.valueOf(rid))`),
      ascending. */
  function DependentsOf(values: map<(Id, Id), Option<string>>, fieldId: Id, rid: Id): (ds: seq<Id>)
    ensures forall x :: x in ds <==> (x, fieldId) in values && values[(x, fieldId)] == Some(IntToString(rid))
  {
    SortedKeys(set k | k in values && k.1 == fieldId && values[k] == Some(IntToString(rid)) :: k.0)
  }

  /** Relationship `id` points at table `tableId`; a record without a
      table is pointed at by none, since `toTableId` is never null. */
  predicate PointsAt(rels: map<Id, Relationship>, id: Id, tableId: Option<Id>) {
    id in rels && Some(rels[id].toTableId) == tableId
  }

  /** `deleteByRecordId` followed by `delete(record)`. */
  function Remove(rows: Rows, rid: Id): (r: Rows)
    ensures Gone(r, rid)
    ensures forall x :: x in r.records <==> x in rows.records && x != rid
    ensures forall k :: k in r.values <==> k in rows.values && k.0 != rid
  {
    Rows(rows.records - {rid}, map k | k in rows.values && k.0 != rid :: rows.values[k])
  }

  /** Record `x` and all its value rows are absent. */
  predicate Gone(rows: Rows, x: Id) {
    x !in rows.records && forall k :: k in rows.values ==> k.0 != x
  }

  /** `b` is `a` with some records and value rows removed; a row is only
      ever removed together with its record and a record together with its
      rows. */
  predicate Shrinks(a: Rows, b: Rows) {
    && b.records.Keys <= a.records.Keys
    && (forall x :: x in b.records ==> b.records[x] == a.records[x])
    && b.values.Keys <= a.values.Keys
    && (forall k :: k in b.values ==> b.values[k] == a.values[k])
    && (forall k :: k in a.values && k !in b.values ==> k.0 !in b.records)
    && (forall k :: k in b.values && k.0 in a.records ==> k.0 in b.records)
  }

  /** Removals compose. */
  lemma ShrinksTrans(a: Rows, b: Rows, c: Rows)
    requires Shrinks(a, b) && Shrinks(b, c)
    ensures Shrinks(a, c)
  {
  }

  /** What is gone stays gone, and rows keep their records, as the rows
      shrink. */
  lemma ShrinksKeeps(a: Rows, b: Rows)
    requires Shrinks(a, b)
    ensures forall x :: Gone(a, x) ==> Gone(b, x)
    ensures Linked(a) ==> Linked(b)
  {
  }

  /** Removing a record shrinks the rows and keeps every row with its
      record. */
  lemma RemoveShrinks(rows: Rows, rid: Id)
    ensures Shrinks(rows, Remove(rows, rid))
    ensures Linked(rows) ==> Linked(Remove(rows, rid))
  {
  }

  /** No value row on the from-field of one of the relationships `ids`
      pointing at `tableId` holds the id `rid`. */
  predicate NoReferences(rows: Rows, rels: map<Id, Relationship>, ids: seq<Id>, tableId: Option<Id>, rid: Id) {
    forall i, k ::
      (0 <= i < |ids| && PointsAt(rels, ids[i], tableId) && k in rows.values && k.1 == rels[ids[i]].fromFieldId)
      ==> rows.values[k] != Some(IntToString(rid))
  }

  /** Rows that shrink gain no references. */
  lemma NoReferencesKept(a: Rows, b: Rows, rels: map<Id, Relationship>, ids: seq<Id>, tableId: Option<Id>, rid: Id)
    requires Shrinks(a, b) && NoReferences(a, rels, ids, tableId, rid)
    ensures NoReferences(b, rels, ids, tableId, rid)
  {
  }

  /** The delete of record `rid` from `rows`, reading systems, memberships
      and relationships from `st`; `ids` lists the relationships by
      ascending id, the order `findByToTableId` returns those pointing at a
      table. The record must exist and the caller must hold
      `delete_record` on its system. For every relationship pointing at the
      record's table, every record whose value on the relationship's
      from-field is this record's id is deleted first, recursively, with
      the same caller; the list of dependents is read afresh for each
      relationship. Then the record's values and the record go. Any failure
      of a dependent becomes `CascadeFailed` and aborts the whole delete.
      The source recurses without bound and a reference cycle overflows its
      stack, which no handler catches: `fuel` bounds the depth of the
      recursion, and running out of it is that overflow. */
  function DeleteRows(st: Store, ids: seq<Id>, rows: Rows, rid: Id, userId: Id, fuel: nat): (r: Result<Rows>)
    ensures fuel > 0 && rid !in rows.records ==> r == Err(RecordNotFound)
    ensures r.Ok? ==> (rid in rows.records
      && HasPermission(st, rows.records[rid].systemId, userId, DeleteRecords) == Ok(true))
    decreases fuel, 0
  {
    if fuel == 0 then Err(CascadeTooDeep)
    else if rid !in rows.records then Err(RecordNotFound)
    else
      var rec := rows.records[rid];
      match Guard(HasPermission(st, rec.systemId, userId, DeleteRecords))
      case Fail(e) => Err(e)
      case Pass =>
        match CascadeRels(st, ids, rows, rid, rec.tableId, ids, userId, fuel - 1)
        case Err(e) => Err(e)
        case Ok(rows2) => Ok(Remove(rows2, rid))
  }

  /** The loop over the relationships `todo`, skipping those that do not
      point at `tableId`. */
  function CascadeRels(st: Store, ids: seq<Id>, rows: Rows, rid: Id, tableId: Option<Id>, todo: seq<Id>,
                       userId: Id, fuel: nat): (r: Result<Rows>)
    decreases fuel, 2, |todo|
  {
    if todo == [] then Ok(rows)
    else if !PointsAt(st.relationships, todo[0], tableId) then
      CascadeRels(st, ids, rows, rid, tableId, todo[1..], userId, fuel)
    else
      var f := st.relationships[todo[0]].fromFieldId;
      match CascadeDependents(st, ids, rows, DependentsOf(rows.values, f, rid), userId, fuel)
      case Err(e) => Err(e)
      case Ok(rows1) => CascadeRels(st, ids, rows1, rid, tableId, todo[1..], userId, fuel)
  }

  /** The loop over the dependents `ds` of one relationship: a dependent's
      failure is reported as `CascadeFailed`, except running out of fuel,
      which nothing catches. */
  function CascadeDependents(st: Store, ids: seq<Id>, rows: Rows, ds: seq<Id>, userId: Id, fuel: nat): (r: Result<Rows>)
    ensures r.Err? ==> r.error in {CascadeFailed, CascadeTooDeep}
    decreases fuel, 1, |ds|
  {
    if ds == [] then Ok(rows)
    else
      match DeleteRows(st, ids, rows, ds[0], userId, fuel)
      case Err(e) => Err(if e == CascadeTooDeep then CascadeTooDeep else CascadeFailed)
      case Ok(rows1) => CascadeDependents(st, ids, rows1, ds[1..], userId, fuel)
  }

  /** `deleteRecord` on the whole store: only records and value rows
      change. */
  function DeleteRecord(st: Store, rid: Id, userId: Id, fuel: nat): (r: Result<Store>)
    ensures r.Ok? ==> r.value == st.(records := r.value.records, values := r.value.values)
    ensures fuel > 0 && rid !in st.records ==> r == Err(RecordNotFound)
    ensures r.Ok? ==> (rid in st.records
      && HasPermission(st, st.records[rid].systemId, userId, DeleteRecords) == Ok(true))
  {
    match DeleteRows(st, SortedKeys(st.relationships.Keys), RowsOf(st), rid, userId, fuel)
    case Err(e) => Err(e)
    case Ok(rows) => Ok(st.(records := rows.records, values := rows.values))
  }

  /** A successful delete removes the record with its rows, and the records
      that referenced it through a relationship pointing at its table,
      recursively; no remaining row on such a relationship's from-field
      names it any more. A row goes only with its record, and every
      remaining row still belongs to a record. */
  lemma {:induction false} DeleteRowsRemoves(st: Store, ids: seq<Id>, rows: Rows, rid: Id, userId: Id, fuel: nat)
    requires DeleteRows(st, ids, rows, rid, userId, fuel).Ok?
    ensures var r := DeleteRows(st, ids, rows, rid, userId, fuel).value;
      && Shrinks(rows, r) && Gone(r, rid)
      && NoReferences(r, st.relationships, ids, rows.records[rid].tableId, rid)
      && (Linked(rows) ==> Linked(r))
    decreases fuel, 0
  {
    var tableId := rows.records[rid].tableId;
    var c := CascadeRels(st, ids, rows, rid, tableId, ids, userId, fuel - 1).value;
    CascadeRelsRemoves(st, ids, rows, rid, tableId, ids, userId, fuel - 1);
    CascadeThenRemove(rows, c, rid, st.relationships, ids, tableId);
  }

  /** Removing a record after a cascade that shrank the rows and left no
      reference to it. */
  lemma CascadeThenRemove(rows: Rows, c: Rows, rid: Id, rels: map<Id, Relationship>, ids: seq<Id>, tableId: Option<Id>)
    requires Shrinks(rows, c) && NoReferences(c, rels, ids, tableId, rid) && (Linked(rows) ==> Linked(c))
    ensures var r := Remove(c, rid);
      && Shrinks(rows, r) && Gone(r, rid) && NoReferences(r, rels, ids, tableId, rid)
      && (Linked(rows) ==> Linked(r))
  {
    RemoveShrinks(c, rid);
    ShrinksTrans(rows, c, Remove(c, rid));
    NoReferencesKept(c, Remove(c, rid), rels, ids, tableId, rid);
  }

  /** `DeleteRowsRemoves` for the loop over relationships. */
  lemma {:induction false} CascadeRelsRemoves(st: Store, ids: seq<Id>, rows: Rows, rid: Id, tableId: Option<Id>,
                                              todo: seq<Id>, userId: Id, fuel: nat)
    requires CascadeRels(st, ids, rows, rid, tableId, todo, userId, fuel).Ok?
    ensures var r := CascadeRels(st, ids, rows, rid, tableId, todo, userId, fuel).value;
      && Shrinks(rows, r) && NoReferences(r, st.relationships, todo, tableId, rid)
      && (Linked(rows) ==> Linked(r))
    decreases fuel, 2, |todo|
  {
    if todo != [] {
      var rows1 := rows;
      if PointsAt(st.relationships, todo[0], tableId) {
        var deps := DependentsOf(rows.values, st.relationships[todo[0]].fromFieldId, rid);
        CascadeDependentsRemoves(st, ids, rows, deps, userId, fuel);
        rows1 := CascadeDependents(st, ids, rows, deps, userId, fuel).value;
      }
      CascadeRelsRemoves(st, ids, rows1, rid, tableId, todo[1..], userId, fuel);
      var rows2 := CascadeRels(st, ids, rows1, rid, tableId, todo[1..], userId, fuel).value;
      ShrinksTrans(rows, rows1, rows2);
      if PointsAt(st.relationships, todo[0], tableId) {
        DependentsCleared(rows, rows1, rows2, st.relationships[todo[0]].fromFieldId, rid);
      }
      NoReferencesCons(rows2, st.relationships, todo, tableId, rid);
    }
  }

  /** Once every dependent on field `f` is gone, no row left on `f` holds
      the id `rid`. */
  lemma DependentsCleared(rows: Rows, rows1: Rows, rows2: Rows, f: Id, rid: Id)
    requires Shrinks(rows, rows1) && Shrinks(rows1, rows2)
    requires var ds := DependentsOf(rows.values, f, rid); forall i :: 0 <= i < |ds| ==> Gone(rows1, ds[i])
    ensures forall k :: k in rows2.values && k.1 == f ==> rows2.values[k] != Some(IntToString(rid))
  {
    var ds := DependentsOf(rows.values, f, rid);
    forall k | k in rows2.values && k.1 == f
      ensures rows2.values[k] != Some(IntToString(rid))
    {
      assert (k.0, f) == k;
    }
  }

  /** `NoReferences` over a list is that of its head and of its tail. */
  lemma NoReferencesCons(r: Rows, rels: map<Id, Relationship>, todo: seq<Id>, tableId: Option<Id>, rid: Id)
    requires todo != [] && NoReferences(r, rels, todo[1..], tableId, rid)
    requires PointsAt(rels, todo[0], tableId) ==>
      forall k :: k in r.values && k.1 == rels[todo[0]].fromFieldId ==> r.values[k] != Some(IntToString(rid))
    ensures NoReferences(r, rels, todo, tableId, rid)
  {
    assert forall i :: 1 <= i < |todo| ==> todo[i] == todo[1..][i - 1];
  }

  /** `DeleteRowsRemoves` for the loop over dependents. */
  lemma {:induction false} CascadeDependentsRemoves(st: Store, ids: seq<Id>, rows: Rows, ds: seq<Id>, userId: Id, fuel: nat)
    requires CascadeDependents(st, ids, rows, ds, userId, fuel).Ok?
    ensures var r := CascadeDependents(st, ids, rows, ds, userId, fuel).value;
      && Shrinks(rows, r) && (forall i :: 0 <= i < |ds| ==> Gone(r, ds[i]))
      && (Linked(rows) ==> Linked(r))
    decreases fuel, 1, |ds|
  {
    if ds != [] {
      DeleteRowsRemoves(st, ids, rows, ds[0], userId, fuel);
      var rows1 := DeleteRows(st, ids, rows, ds[0], userId, fuel).value;
      CascadeDependentsRemoves(st, ids, rows1, ds[1..], userId, fuel);
      var rows2 := CascadeDependents(st, ids, rows1, ds[1..], userId, fuel).value;
      ShrinksTrans(rows, rows1, rows2);
      ShrinksKeeps(rows1, rows2);
      assert forall i :: 1 <= i < |ds| ==> ds[i] == ds[1..][i - 1];
    }
  }

  /** The cascade over relationships whose from-fields hold no reference
      deletes nothing. */
  lemma {:induction false} CascadeWithoutReferences(st: Store, ids: seq<Id>, rows: Rows, rid: Id, tableId: Option<Id>,
                                                    todo: seq<Id>, userId: Id, fuel: nat)
    requires NoReferences(rows, st.relationships, todo, tableId, rid)
    ensures CascadeRels(st, ids, rows, rid, tableId, todo, userId, fuel) == Ok(rows)
    decreases |todo|
  {
    if todo != [] {
      if PointsAt(st.relationships, todo[0], tableId) {
        assert DependentsOf(rows.values, st.relationships[todo[0]].fromFieldId, rid) == [];
      }
      assert NoReferences(rows, st.relationships, todo[1..], tableId, rid) by {
        assert forall i :: 0 <= i < |todo[1..]| ==> todo[1..][i] == todo[i + 1];
      }
      CascadeWithoutReferences(st, ids, rows, rid, tableId, todo[1..], userId, fuel);
    }
  }

  /** No value row on the from-field of a relationship pointing at
      `tableId` holds the id `rid`. */
  ghost predicate Unreferenced(st: Store, tableId: Option<Id>, rid: Id) {
    forall id, k ::
      (PointsAt(st.relationships, id, tableId) && k in st.values && k.1 == st.relationships[id].fromFieldId)
      ==> st.values[k] != Some(IntToString(rid))
  }

  /** A record nothing references is deleted on its own, given one level of
      recursion: exactly it and its rows go. */
  lemma DeleteUnreferenced(st: Store, rid: Id, userId: Id, fuel: nat)
    requires rid in st.records && fuel >= 1
    requires HasPermission(st, st.records[rid].systemId, userId, DeleteRecords) == Ok(true)
    requires Unreferenced(st, st.records[rid].tableId, rid)
    ensures DeleteRecord(st, rid, userId, fuel)
      == Ok(st.(records := st.records - {rid}, values := map k | k in st.values && k.0 != rid :: st.values[k]))
  {
    var ids := SortedKeys(st.relationships.Keys);
    var rows := RowsOf(st);
    assert NoReferences(rows, st.relationships, ids, st.records[rid].tableId, rid);
    CascadeWithoutReferences(st, ids, rows, rid, st.records[rid].tableId, ids, userId, fuel - 1);
    assert DeleteRows(st, ids, rows, rid, userId, fuel) == Ok(Remove(rows, rid));
  }

  /** `deleteRecord` on the whole store: the record and its rows are gone,
      and so is every record that referenced it through a relationship
      pointing at its table, with its rows when every row had a record.
      Only records and rows change, and every remaining row still belongs
      to a record. */
  lemma DeleteRecordRemoves(st: Store, rid: Id, userId: Id, fuel: nat, id: Id, x: Id)
    requires DeleteRecord(st, rid, userId, fuel).Ok?
    requires PointsAt(st.relationships, id, st.records[rid].tableId)
    requires (x, st.relationships[id].fromFieldId) in st.values
    requires st.values[(x, st.relationships[id].fromFieldId)] == Some(IntToString(rid))
    ensures var r := DeleteRecord(st, rid, userId, fuel).value;
      && rid !in r.records && (forall k :: k in r.values ==> k.0 != rid)
      && x !in r.records
      && (RowsHaveRecords(st) ==> RowsHaveRecords(r) && forall k :: k in r.values ==> k.0 != x)
  {
    var ids := SortedKeys(st.relationships.Keys);
    DeleteRowsRemoves(st, ids, RowsOf(st), rid, userId, fuel);
    var k := (x, st.relationships[id].fromFieldId);
    var i :| 0 <= i < |ids| && ids[i] == id;
    assert k !in DeleteRows(st, ids, RowsOf(st), rid, userId, fuel).value.values;
  }

  // ---------------------------------------------------------------------
  // Survivors
  // ---------------------------------------------------------------------

  /** Record `x` has a value row on the from-field of some relationship:
      only such a record can be found as a dependent. */
  predicate Referencing(rels: map<Id, Relationship>, rows: Rows, x: Id) {
    exists id :: id in rels && (x, rels[id].fromFieldId) in rows.values
  }

  /** Every record removed between `a` and `b` is one of `roots` or had a
      value row on a relationship's from-field in `a`. */
  predicate OnlyRemoves(a: Rows, b: Rows, rels: map<Id, Relationship>, roots: set<Id>) {
    forall x :: x in a.records && x !in b.records ==> x in roots || Referencing(rels, a, x)
  }

  /** Removals of referencing records compose. */
  lemma OnlyRemovesTrans(a: Rows, b: Rows, c: Rows, rels: map<Id, Relationship>, r1: set<Id>, r2: set<Id>)
    requires Shrinks(a, b) && OnlyRemoves(a, b, rels, r1) && OnlyRemoves(b, c, rels, r2)
    ensures OnlyRemoves(a, c, rels, r1 + r2)
  {
    forall x | x in a.records && x !in c.records && x !in r1 + r2
      ensures Referencing(rels, a, x)
    {
      if x in b.records && Referencing(rels, b, x) {
        var id :| id in rels && (x, rels[id].fromFieldId) in b.values;
        assert (x, rels[id].fromFieldId) in a.values;
      }
    }
  }

  /** A delete removes, besides the record itself, only records that had a
      value row on some relationship's from-field. */
  lemma {:induction false} DeleteRowsSpares(st: Store, ids: seq<Id>, rows: Rows, rid: Id, userId: Id, fuel: nat)
    requires DeleteRows(st, ids, rows, rid, userId, fuel).Ok?
    ensures OnlyRemoves(rows, DeleteRows(st, ids, rows, rid, userId, fuel).value, st.relationships, {rid})
    decreases fuel, 0
  {
    var tableId := rows.records[rid].tableId;
    var c := CascadeRels(st, ids, rows, rid, tableId, ids, userId, fuel - 1).value;
    CascadeRelsSpares(st, ids, rows, rid, tableId, ids, userId, fuel - 1);
    CascadeRelsRemoves(st, ids, rows, rid, tableId, ids, userId, fuel - 1);
    RemoveShrinks(c, rid);
    OnlyRemovesTrans(rows, c, Remove(c, rid), st.relationships, {}, {rid});
  }

  /** `DeleteRowsSpares` for the loop over relationships: it removes only
      referencing records. */
  lemma {:induction false} CascadeRelsSpares(st: Store, ids: seq<Id>, rows: Rows, rid: Id, tableId: Option<Id>,
                                             todo: seq<Id>, userId: Id, fuel: nat)
    requires CascadeRels(st, ids, rows, rid, tableId, todo, userId, fuel).Ok?
    ensures OnlyRemoves(rows, CascadeRels(st, ids, rows, rid, tableId, todo, userId, fuel).value, st.relationships, {})
    decreases fuel, 2, |todo|
  {
    if todo != [] {
      var rows1 := rows;
      if PointsAt(st.relationships, todo[0], tableId) {
        var f := st.relationships[todo[0]].fromFieldId;
        var deps := DependentsOf(rows.values, f, rid);
        assert forall i :: 0 <= i < |deps| ==> (deps[i], f) in rows.values;
        CascadeDependentsSpares(st, ids, rows, deps, userId, fuel);
        CascadeDependentsRemoves(st, ids, rows, deps, userId, fuel);
        rows1 := CascadeDependents(st, ids, rows, deps, userId, fuel).value;
      }
      CascadeRelsSpares(st, ids, rows1, rid, tableId, todo[1..], userId, fuel);
      var rows2 := CascadeRels(st, ids, rows1, rid, tableId, todo[1..], userId, fuel).value;
      OnlyRemovesTrans(rows, rows1, rows2, st.relationships, {}, {});
    }
  }

  /** `DeleteRowsSpares` for the loop over dependents, each of which, while
      present, has a value row on a relationship's from-field. */
  lemma {:induction false} CascadeDependentsSpares(st: Store, ids: seq<Id>, rows: Rows, ds: seq<Id>, userId: Id, fuel: nat)
    requires CascadeDependents(st, ids, rows, ds, userId, fuel).Ok?
    requires forall i :: 0 <= i < |ds| && ds[i] in rows.records ==> Referencing(st.relationships, rows, ds[i])
    ensures OnlyRemoves(rows, CascadeDependents(st, ids, rows, ds, userId, fuel).value, st.relationships, {})
    decreases fuel, 1, |ds|
  {
    if ds != [] {
      DeleteRowsSpares(st, ids, rows, ds[0], userId, fuel);
      DeleteRowsRemoves(st, ids, rows, ds[0], userId, fuel);
      var rows1 := DeleteRows(st, ids, rows, ds[0], userId, fuel).value;
      StillReferencing(st.relationships, rows, rows1, ds);
      CascadeDependentsSpares(st, ids, rows1, ds[1..], userId, fuel);
      var rows2 := CascadeDependents(st, ids, rows1, ds[1..], userId, fuel).value;
      OnlyRemovesTrans(rows, rows1, rows2, st.relationships, {ds[0]}, {});
    }
  }

  /** A record still present after the rows shrink keeps its value rows,
      so it still references what it did. */
  lemma StillReferencing(rels: map<Id, Relationship>, a: Rows, b: Rows, ds: seq<Id>)
    requires |ds| > 0 && Shrinks(a, b)
    requires forall i :: 0 <= i < |ds| && ds[i] in a.records ==> Referencing(rels, a, ds[i])
    ensures forall i :: 0 <= i < |ds[1..]| && ds[1..][i] in b.records ==> Referencing(rels, b, ds[1..][i])
  {
    forall i | 0 <= i < |ds[1..]| && ds[1..][i] in b.records
      ensures Referencing(rels, b, ds[1..][i])
    {
      var x := ds[1..][i];
      assert x == ds[i + 1];
      var id :| id in rels && (x, rels[id].fromFieldId) in a.values;
      assert (x, rels[id].fromFieldId) in b.values;
    }
  }

  /** A delete spares every other record that has no value row on any
      relationship's from-field: the record and all its value rows stay
      exactly as they were. */
  lemma DeleteRecordSpares(st: Store, rid: Id, userId: Id, fuel: nat, x: Id)
    requires DeleteRecord(st, rid, userId, fuel).Ok?
    requires x in st.records && x != rid
    requires forall id :: id in st.relationships ==> (x, st.relationships[id].fromFieldId) !in st.values
    ensures var r := DeleteRecord(st, rid, userId, fuel).value;
      && x in r.records && r.records[x] == st.records[x]
      && (forall k :: k in st.values && k.0 == x ==> k in r.values && r.values[k] == st.values[k])
  {
    var ids := SortedKeys(st.relationships.Keys);
    DeleteRowsSpares(st, ids, RowsOf(st), rid, userId, fuel);
    DeleteRowsRemoves(st, ids, RowsOf(st), rid, userId, fuel);
  }

  // ---------------------------------------------------------------------
  // Fuel
  // ---------------------------------------------------------------------

  /** Fuel only bounds the depth: a delete that did not run out of it
      gives the same result with one more level. */
  lemma {:induction false} DeleteRowsFuel(st: Store, ids: seq<Id>, rows: Rows, rid: Id, userId: Id, fuel: nat)
    requires DeleteRows(st, ids, rows, rid, userId, fuel) != Err(CascadeTooDeep)
    ensures DeleteRows(st, ids, rows, rid, userId, fuel + 1) == DeleteRows(st, ids, rows, rid, userId, fuel)
    decreases fuel, 0
  {
    if fuel > 0 && rid in rows.records
       && Guard(HasPermission(st, rows.records[rid].systemId, userId, DeleteRecords)).Pass? {
      CascadeRelsFuel(st, ids, rows, rid, rows.records[rid].tableId, ids, userId, fuel - 1);
    }
  }

  /** `DeleteRowsFuel` for the loop over relationships. */
  lemma {:induction false} CascadeRelsFuel(st: Store, ids: seq<Id>, rows: Rows, rid: Id, tableId: Option<Id>,
                                           todo: seq<Id>, userId: Id, fuel: nat)
    requires CascadeRels(st, ids, rows, rid, tableId, todo, userId, fuel) != Err(CascadeTooDeep)
    ensures CascadeRels(st, ids, rows, rid, tableId, todo, userId, fuel + 1)
         == CascadeRels(st, ids, rows, rid, tableId, todo, userId, fuel)
    decreases fuel, 2, |todo|
  {
    if todo != [] {
      if PointsAt(st.relationships, todo[0], tableId) {
        var deps := DependentsOf(rows.values, st.relationships[todo[0]].fromFieldId, rid);
        CascadeDependentsFuel(st, ids, rows, deps, userId, fuel);
        if CascadeDependents(st, ids, rows, deps, userId, fuel).Ok? {
          CascadeRelsFuel(st, ids, CascadeDependents(st, ids, rows, deps, userId, fuel).value, rid, tableId, todo[1..], userId, fuel);
        }
      } else {
        CascadeRelsFuel(st, ids, rows, rid, tableId, todo[1..], userId, fuel);
      }
    }
  }

  /** `DeleteRowsFuel` for the loop over dependents. */
  lemma {:induction false} CascadeDependentsFuel(st: Store, ids: seq<Id>, rows: Rows, ds: seq<Id>, userId: Id, fuel: nat)
    requires CascadeDependents(st, ids, rows, ds, userId, fuel) != Err(CascadeTooDeep)
    ensures CascadeDependents(st, ids, rows, ds, userId, fuel + 1) == CascadeDependents(st, ids, rows, ds, userId, fuel)
    decreases fuel, 1, |ds|
  {
    if ds != [] {
      DeleteRowsFuel(st, ids, rows, ds[0], userId, fuel);
      if DeleteRows(st, ids, rows, ds[0], userId, fuel).Ok? {
        CascadeDependentsFuel(st, ids, DeleteRows(st, ids, rows, ds[0], userId, fuel).value, ds[1..], userId, fuel);
      }
    }
  }

  /** Any amount of extra fuel leaves a result that was reached unchanged. */
  lemma {:induction false} DeleteRowsMoreFuel(st: Store, ids: seq<Id>, rows: Rows, rid: Id, userId: Id, fuel: nat, more: nat)
    requires fuel <= more
    requires DeleteRows(st, ids, rows, rid, userId, fuel) != Err(CascadeTooDeep)
    ensures DeleteRows(st, ids, rows, rid, userId, more) == DeleteRows(st, ids, rows, rid, userId, fuel)
    decreases more - fuel
  {
    if fuel < more {
      DeleteRowsFuel(st, ids, rows, rid, userId, fuel);
      DeleteRowsMoreFuel(st, ids, rows, rid, userId, fuel + 1, more);
    }
  }

  /** `deleteRecord`'s result does not depend on the bound once it is
      large enough: more fuel leaves a result that was reached unchanged. */
  lemma DeleteRecordMoreFuel(st: Store, rid: Id, userId: Id, fuel: nat, more: nat)
    requires fuel <= more
    requires DeleteRecord(st, rid, userId, fuel) != Err(CascadeTooDeep)
    ensures DeleteRecord(st, rid, userId, more) == DeleteRecord(st, rid, userId, fuel)
  {
    DeleteRowsMoreFuel(st, SortedKeys(st.relationships.Keys), RowsOf(st), rid, userId, fuel, more);
  }

  // ---------------------------------------------------------------------
  // Reference cycles
  // ---------------------------------------------------------------------

  /** Record `x` names itself on the from-field of relationship `id`, which
      points at its own table. `createRecordForTable` admits such a record
      (see `Records.CreateRecordForTableSelfReference`). */
  predicate SelfRef(st: Store, rows: Rows, x: Id, id: Id) {
    && x in rows.records
    && PointsAt(st.relationships, id, rows.records[x].tableId)
    && (x, st.relationships[id].fromFieldId) in rows.values
    && rows.values[(x, st.relationships[id].fromFieldId)] == Some(IntToString(x))
  }

  /** A record that names itself is never deleted, whatever the fuel: its
      delete finds it among its own dependents and starts over. */
  lemma {:induction false} SelfRefBlocks(st: Store, ids: seq<Id>, rows: Rows, x: Id, id: Id, userId: Id, fuel: nat)
    requires SelfRef(st, rows, x, id) && id in ids
    ensures DeleteRows(st, ids, rows, x, userId, fuel).Err?
    decreases fuel, 0, 0
  {
    if fuel > 0 && Guard(HasPermission(st, rows.records[x].systemId, userId, DeleteRecords)).Pass? {
      SelfRefBlocksRels(st, ids, rows, x, id, ids, userId, fuel - 1);
    }
  }

  /** A delete that succeeds leaves a record that names itself in place. */
  lemma {:induction false} SelfRefSurvives(st: Store, ids: seq<Id>, rows: Rows, y: Id, x: Id, id: Id, userId: Id, fuel: nat)
    requires SelfRef(st, rows, x, id) && id in ids
    requires DeleteRows(st, ids, rows, y, userId, fuel).Ok?
    ensures SelfRef(st, DeleteRows(st, ids, rows, y, userId, fuel).value, x, id)
    decreases fuel, 1, 0
  {
    SelfRefBlocks(st, ids, rows, x, id, userId, fuel);
    var tableId := rows.records[y].tableId;
    SelfRefSurvivesRels(st, ids, rows, y, tableId, ids, x, id, userId, fuel - 1);
  }

  /** `SelfRefSurvives` for the loop over dependents. */
  lemma {:induction false} SelfRefSurvivesDeps(st: Store, ids: seq<Id>, rows: Rows, ds: seq<Id>, x: Id, id: Id, userId: Id, fuel: nat)
    requires SelfRef(st, rows, x, id) && id in ids
    requires CascadeDependents(st, ids, rows, ds, userId, fuel).Ok?
    ensures SelfRef(st, CascadeDependents(st, ids, rows, ds, userId, fuel).value, x, id)
    decreases fuel, 2, |ds|
  {
    if ds != [] {
      SelfRefSurvives(st, ids, rows, ds[0], x, id, userId, fuel);
      SelfRefSurvivesDeps(st, ids, DeleteRows(st, ids, rows, ds[0], userId, fuel).value, ds[1..], x, id, userId, fuel);
    }
  }

  /** `SelfRefBlocks` for the loop over dependents: a list that holds the
      record itself fails. */
  lemma {:induction false} SelfRefBlocksDeps(st: Store, ids: seq<Id>, rows: Rows, ds: seq<Id>, x: Id, id: Id, userId: Id, fuel: nat)
    requires SelfRef(st, rows, x, id) && id in ids && x in ds
    ensures CascadeDependents(st, ids, rows, ds, userId, fuel).Err?
    decreases fuel, 3, |ds|
  {
    if ds[0] == x {
      SelfRefBlocks(st, ids, rows, x, id, userId, fuel);
    } else if DeleteRows(st, ids, rows, ds[0], userId, fuel).Ok? {
      SelfRefSurvives(st, ids, rows, ds[0], x, id, userId, fuel);
      assert x in ds[1..];
      SelfRefBlocksDeps(st, ids, DeleteRows(st, ids, rows, ds[0], userId, fuel).value, ds[1..], x, id, userId, fuel);
    }
  }

  /** `SelfRefSurvives` for the loop over relationships. */
  lemma {:induction false} SelfRefSurvivesRels(st: Store, ids: seq<Id>, rows: Rows, rid: Id, tableId: Option<Id>,
                                               todo: seq<Id>, x: Id, id: Id, userId: Id, fuel: nat)
    requires SelfRef(st, rows, x, id) && id in ids
    requires CascadeRels(st, ids, rows, rid, tableId, todo, userId, fuel).Ok?
    ensures SelfRef(st, CascadeRels(st, ids, rows, rid, tableId, todo, userId, fuel).value, x, id)
    decreases fuel, 4, |todo|
  {
    if todo != [] {
      var rows1 := rows;
      if PointsAt(st.relationships, todo[0], tableId) {
        var deps := DependentsOf(rows.values, st.relationships[todo[0]].fromFieldId, rid);
        SelfRefSurvivesDeps(st, ids, rows, deps, x, id, userId, fuel);
        rows1 := CascadeDependents(st, ids, rows, deps, userId, fuel).value;
      }
      SelfRefSurvivesRels(st, ids, rows1, rid, tableId, todo[1..], x, id, userId, fuel);
    }
  }

  /** `SelfRefBlocks` for the loop over relationships: once the loop
      reaches the relationship the record names itself through, it fails. */
  lemma {:induction false} SelfRefBlocksRels(st: Store, ids: seq<Id>, rows: Rows, x: Id, id: Id,
                                             todo: seq<Id>, userId: Id, fuel: nat)
    requires SelfRef(st, rows, x, id) && id in ids && id in todo
    ensures CascadeRels(st, ids, rows, x, rows.records[x].tableId, todo, userId, fuel).Err?
    decreases fuel, 5, |todo|
  {
    var tableId := rows.records[x].tableId;
    if PointsAt(st.relationships, todo[0], tableId) {
      var deps := DependentsOf(rows.values, st.relationships[todo[0]].fromFieldId, x);
      if todo[0] == id {
        SelfRefBlocksDeps(st, ids, rows, deps, x, id, userId, fuel);
      } else if CascadeDependents(st, ids, rows, deps, userId, fuel).Ok? {
        SelfRefSurvivesDeps(st, ids, rows, deps, x, id, userId, fuel);
        var rows1 := CascadeDependents(st, ids, rows, deps, userId, fuel).value;
        assert id in todo[1..];
        SelfRefBlocksRels(st, ids, rows1, x, id, todo[1..], userId, fuel);
      }
    } else {
      assert id in todo[1..];
      SelfRefBlocksRels(st, ids, rows, x, id, todo[1..], userId, fuel);
    }
  }

  /** `deleteRecord` of a record that names itself through a relationship
      pointing at its own table never succeeds, however deep the recursion
      may go. */
  lemma SelfReferenceNeverDeleted(st: Store, rid: Id, userId: Id, fuel: nat, id: Id)
    requires rid in st.records && PointsAt(st.relationships, id, st.records[rid].tableId)
    requires (rid, st.relationships[id].fromFieldId) in st.values
    requires st.values[(rid, st.relationships[id].fromFieldId)] == Some(IntToString(rid))
    ensures DeleteRecord(st, rid, userId, fuel).Err?
  {
    SelfRefBlocks(st, SortedKeys(st.relationships.Keys), RowsOf(st), rid, id, userId, fuel);
  }
}
