# Datium services in Dafny

Datium is a Spring application for building small databases. An owner
creates a *system*, gives it tables and typed fields, and fills it with
records. A record is a set of text values, one per (record, field) pair.
A *relationship* declares that a field of one table holds the id of a
record of another table.

This project models the service layer as pure transitions over an
immutable store. The `Store` in `entities.dfy` holds one finite map per
repository, keyed by id:

- users, plans, systems and shares;
- memberships and member passwords, keyed by (system, user);
- tables, fields and records;
- value rows, keyed by (record, field);
- relationships and invitations.

Keying memberships and value rows by pairs makes the unique constraints of
`SystemUser` and `SystemRecordValue` hold by construction. Every operation
returns a `Result`: either an error or the new store.

A `@Transactional` method is modelled as all-or-nothing, so an error
carries no store. A Java exception becomes an `Error` value. This covers:

- a `NullPointerException` from `Enum.valueOf(null)` or from unboxing;
- a NOT NULL or unique-key violation at a save;
- the `RuntimeException`s the services throw.

The modules follow the source:

- **Access** (`access.dfy`): the owner/admin/editor/viewer permission matrix
  of the record service, and the "owner or any member" rule of the table
  and relationship services.
- **Plans** (`plans.dfy`): the plan limits. A null limit is unlimited, and
  a request is refused once the count reaches the limit.
- **Records** and **Fields** (`records.dfy`, `fields.dfy`): system-level and
  table-level field and record creation, the reference check of relation
  values, record update, and record responses.
- **Deletion** (`deletion.dfy`): the recursive cascade delete of records,
  bounded by a fuel parameter.
- **Tables** and **Relationships** (`tables.dfy`, `relationships.dfy`): table
  and relationship management.
- **Systems** (`systems.dfy`): system creation, update and deletion,
  visibility, responses, statistics, the create limit and the system
  password check.
- **Invitations** (`invitations.dfy`): the invitation lifecycle (pending,
  then accepted, rejected, cancelled or expired), the response flags and the
  summary counts.
- **Accounts** (`accounts.dfy`): profile, e-mail, password, plan and avatar
  changes.
- **Audit** and **Csv** (`audit.dfy`, `csv.dfy`): the audit repositories'
  search and filter queries, the audit controller's helpers, and the CSV
  export.
- **Pagination** (`pagination.dfy`): the paging state of the audit page in
  the browser.
- **Common**, **Text** and **Query** (`common.dfy`, `text.dfy`,
  `query.dfy`): ids, results, Java string functions (`parseInt`,
  `String.valueOf`, `toLowerCase`, `trim`, SQL `LIKE`), filtering, and
  stable ordering.
- **Scenario** (`scenario.dfy`): the Library / Authors / Books check of
  the repository's script, as lemmas about the model.

Password hashing is an `Encoder` parameter: an uninterpreted `encode`
function and a `matches` predicate. The clock is a `now` parameter in
seconds. Fresh ids are one more than the largest id in use.

## Model

| member | source | states |
|---|---|---|
| Access.ActionOf | src/main/java/com/Datium/Datium/service/SystemDataService.java:59-70 | an action name selects a branch of the permission switch exactly when it is one of the five known names |
| Access.ActionNameRoundTrip | src/main/java/com/Datium/Datium/service/SystemDataService.java:59-70 | action names and actions correspond one to one: reading a name back gives the same name, and naming a known action reads back as that action |
| Access.HasPermission | src/main/java/com/Datium/Datium/service/SystemDataService.java:42-71 | a missing system is an error; otherwise permission holds exactly for the owner, or for a member whose role allows the action |
| Access.PermissionMatrix | src/main/java/com/Datium/Datium/service/SystemDataService.java:42-71 | the owner may do everything and a non-member nothing; `manage_fields` needs admin, the three record actions need admin or editor, and `view` needs only membership |
| Access.UnknownActionDenied | src/main/java/com/Datium/Datium/service/SystemDataService.java:68-69 | a caller who is not the owner is denied any action name outside the five known ones |
| Access.RolesNested | src/main/java/com/Datium/Datium/service/SystemDataService.java:59-70 | whatever a viewer may do, an editor may do, and whatever an editor may do, an admin may do |
| Access.OwnerOrMember | src/main/java/com/Datium/Datium/service/SystemTableService.java:35-44 | a missing system is an error; otherwise access holds exactly for the owner or a member, whatever the role |
| Access.OwnerOrMemberIsView | src/main/java/com/Datium/Datium/service/SystemRelationshipService.java:34-43 | the table and relationship services' access rule is the record service's `view` permission |
| Access.Guard | src/main/java/com/Datium/Datium/service/SystemDataService.java:84-86 | a permission check passes only on a granted permission; a denial is reported as `PermissionDenied` and a lookup error as that error |
| Plans.PlanOfUser | src/main/java/com/Datium/Datium/service/PlanValidationService.java:49-52 | a user's plan is found exactly when the user exists, has a plan id, and that plan exists |
| Plans.CheckLimit | src/main/java/com/Datium/Datium/service/PlanValidationService.java:41-46 | a check passes exactly when the owner's plan is found and its limit of that kind is null or above the current count |
| Plans.ValidateSystemLimit | src/main/java/com/Datium/Datium/service/PlanValidationService.java:27-39 | a new system is admitted exactly when the user's plan exists and its `maxSystems` is null or above the number of systems the user owns |
| Plans.ValidateRecordLimitForOwner | src/main/java/com/Datium/Datium/service/PlanValidationService.java:48-60 | a new record is admitted exactly when the owner's plan exists and its `maxRecordsPerSystem` is null or above the system's record count |
| Plans.ValidateFieldLimitForOwner | src/main/java/com/Datium/Datium/service/PlanValidationService.java:69-81 | the same rule, with `maxFieldsPerSystem` against the system's field count |
| Plans.ValidateTableLimitForOwner | src/main/java/com/Datium/Datium/service/PlanValidationService.java:93-105 | the same rule, with `maxTablesPerSystem` against the system's table count |
| Plans.ValidateForSystem | src/main/java/com/Datium/Datium/service/PlanValidationService.java:41-105 | a per-system limit is checked against the plan of the system's owner; a missing system is an error |
| Plans.WithinLimitFacts | src/main/java/com/Datium/Datium/service/PlanValidationService.java:33-38 | a null limit admits any count; a count below an admitted one is admitted too; a limit of zero or less admits nothing |
| Records.RelationshipIds | src/main/java/com/Datium/Datium/repository/SystemRelationshipRepository.java:13 | the relationships a query selects are listed once each, in ascending id order |
| Records.FieldRelMap | src/main/java/com/Datium/Datium/service/SystemDataService.java:446-450 | the relationship map has one entry for each from-field that some selected relationship names, and that entry is one of those relationships |
| Records.LastRelationshipWins | src/main/java/com/Datium/Datium/service/SystemDataService.java:446-450 | of several relationships sharing a from-field, only the one with the greatest id is enforced |
| Records.RelationTargets | src/main/java/com/Datium/Datium/service/SystemDataService.java:446-466 | validation sees, for each governed field, the target table of the governing relationship; the target field plays no part |
| Records.CheckEntry | src/main/java/com/Datium/Datium/service/SystemDataService.java:452-474 | a non-null, non-empty value on a governed field passes exactly when it parses as an `int` naming an existing record of the target table; the four ways it can fail are distinguished |
| Records.CheckEntries | src/main/java/com/Datium/Datium/service/SystemDataService.java:452-474 | all entries pass exactly when each does, and a failure is the failure of one of the entries |
| Records.WriteRows | src/main/java/com/Datium/Datium/service/SystemDataService.java:640-664 | every entry's row holds its value, or is deleted for a null on the update path; rows of other records and fields are untouched, and no other row appears |
| Records.InsertRecord | src/main/java/com/Datium/Datium/service/SystemDataService.java:477-489 | the record goes under a fresh id with one row per entry, nulls included; earlier rows are kept; a second row for the same (record, field) pair is a unique-key violation |
| Records.InsertRecordRows | src/main/java/com/Datium/Datium/entity/SystemRecordValue.java:6-8 | inserting into a store whose rows all belong to records never clashes, keeps that property, and leaves the new record with exactly one row per entry |
| Records.CreateRecordForTable | src/main/java/com/Datium/Datium/service/SystemDataService.java:430-491 | creation succeeds exactly when the table exists, the plan admits another record, and every entry passes the check against the records with the new one included; on success exactly the insert happens, and on failure nothing is stored |
| Records.RecordCountAfterAdd | src/main/java/com/Datium/Datium/service/PlanValidationService.java:41-46 | adding a record under a fresh id raises its system's record count by one |
| Records.CreateRecordRespectsLimit | src/main/java/com/Datium/Datium/service/PlanValidationService.java:48-60 | after a successful table-level creation, the system's record count is within the owner's plan limit |
| Records.IdOfTargetRecordPasses | src/main/java/com/Datium/Datium/service/SystemDataService.java:459-468 | a value that is the printed id of a record of the target table passes the check |
| Records.CreateRecordForTableSucceeds | src/main/java/com/Datium/Datium/service/SystemDataService.java:430-491 | the sufficient conditions for a table-level creation to succeed: table, plan limit, passing entries and well-formed rows |
| Records.SelfReferencePasses | src/main/java/com/Datium/Datium/service/SystemDataService.java:442-468 | a reference to the id the new record will receive passes, because the record is saved before the check |
| Records.CreateRecordForTableSelfReference | src/main/java/com/Datium/Datium/service/SystemDataService.java:442-468 | on a table with a relationship to itself, a new record may name its own id |
| Records.FieldIdsByOrder | src/main/java/com/Datium/Datium/repository/SystemFieldRepository.java:12 | the fields of a system are exactly those listed |
| Records.FieldIdsByOrderSorted | src/main/java/com/Datium/Datium/repository/SystemFieldRepository.java:12 | the listed fields come once each, in non-decreasing `orderIndex` |
| Records.NameIndex | src/main/java/com/Datium/Datium/service/SystemDataService.java:211-215 | the name index maps each field name to a field of the system with that name, and every field's name is in it |
| Records.NameIndexKeepsLast | src/main/java/com/Datium/Datium/service/SystemDataService.java:211-215 | a name maps to the last field with it in the ordered list, so no field with that name has a greater `orderIndex` |
| Records.LastNamedIsLatest | src/main/java/com/Datium/Datium/service/SystemDataService.java:211-215 | in a list ordered by `orderIndex`, the last field with a name has an order no smaller than any other field with that name |
| Records.ResolveNames | src/main/java/com/Datium/Datium/service/SystemDataService.java:225-233 | each entry whose name is a known field becomes an entry under that field's id; other entries are dropped |
| Records.SystemFieldIndex | src/main/java/com/Datium/Datium/service/SystemDataService.java:211-215 | the index of a system-level request names fields of that system only |
| Records.CreateRecord | src/main/java/com/Datium/Datium/service/SystemDataService.java:205-239 | a missing system is reported as not found; a caller without `create_record` is refused; creation succeeds exactly when the caller may create, every resolved entry passes its reference check and no row clashes, and then the record and its resolved entries are inserted |
| Records.InsertResolvedRows | src/main/java/com/Datium/Datium/service/SystemDataService.java:225-233 | rows are stored for the entries whose names are known, under their field ids, and for no other name |
| Records.CreateRecordDropsUnknownNames | src/main/java/com/Datium/Datium/service/SystemDataService.java:205-239 | a successful system-level creation stores a row for every known field name and none for unknown names |
| Records.FreshIdNotFound | src/main/java/com/Datium/Datium/service/SystemDataService.java:183-190 | the id a new record would receive names no record yet, so a reference to it is not found |
| Records.ResolveOne | src/main/java/com/Datium/Datium/service/SystemDataService.java:225-233 | a single entry naming a known field resolves to that field's id with the same value |
| Records.CreateRecordChecksBeforeInsert | src/main/java/com/Datium/Datium/service/SystemDataService.java:205-223 | unlike the table-level path, a system-level record cannot name the id it is about to receive |
| Records.UpdateRecord | src/main/java/com/Datium/Datium/service/SystemDataService.java:578-668 | an update succeeds exactly when the record exists, no required field of its table is sent blank, and every reference passes; a null deletes the row, any other value inserts or overwrites it, and unnamed fields keep their rows |
| Records.BlankValueMeansBlank | src/main/java/com/Datium/Datium/service/SystemDataService.java:600-607 | a value counts as blank exactly when it is null or made only of characters `trim` removes |
| Records.EmptyUpdateKeepsRows | src/main/java/com/Datium/Datium/service/SystemDataService.java:640-664 | an update with no entries leaves the store unchanged |
| Records.RowFields | src/main/java/com/Datium/Datium/service/SystemDataService.java:546 | the listed fields are exactly those on which the record has a row |
| Records.NamedRows | src/main/java/com/Datium/Datium/service/SystemDataService.java:554-560 | every listed pair is a known field's name with that field's row value, and every row on a known field is listed |
| Records.FieldValues | src/main/java/com/Datium/Datium/service/SystemDataService.java:554-560 | every key of the response is the name of a known field that carries the shown value, and every known field with a row appears |
| Records.FieldValuesExact | src/main/java/com/Datium/Datium/service/SystemDataService.java:554-560 | with distinct names, the response shows each known field's own value under its name |
| Records.FieldNames | src/main/java/com/Datium/Datium/service/SystemDataService.java:549-552 | the name map holds exactly the selected fields, each under its own name |
| Records.RecordResponse | src/main/java/com/Datium/Datium/service/SystemDataService.java:540-564 | a record response shows only values on fields of the record's table, under their names, and includes every such field that has a row |
| Records.SystemRecordResponse | src/main/java/com/Datium/Datium/service/SystemDataService.java:304-328 | the same for the fields of a whole system |
| Records.RecordResponseShowsTableFields | src/main/java/com/Datium/Datium/service/SystemDataService.java:540-564 | each shown value is the record's value on a current field of its table with that name; with distinct names, every such value is shown as stored |
| Fields.Present | src/main/java/com/Datium/Datium/service/SystemDataService.java:97-103 | a list of options without nulls is read element by element, in order |
| Fields.TrimAll | src/main/java/com/Datium/Datium/service/SystemDataService.java:101 | each option is saved as its trimmed text, in the same order |
| Fields.CreateField | src/main/java/com/Datium/Datium/service/SystemDataService.java:82-107 | a system field is created exactly when the caller may manage fields and the name, type and options are present |
| Fields.AddSystemField | src/main/java/com/Datium/Datium/service/SystemDataService.java:88-103 | a null name or type violates NOT NULL and a null option throws; otherwise a field is added under a fresh id with the given attributes, no table, and trimmed options |
| Fields.UpdateField | src/main/java/com/Datium/Datium/service/SystemDataService.java:109-140 | an update needs `manage_fields` and a field of the system; a null option is reported before a null name or type; it sets the given name and type, `required` only when the request says true, the given order or 0, and each option trimmed, and keeps system and table |
| Fields.DeleteField | src/main/java/com/Datium/Datium/service/SystemDataService.java:142-157 | a delete needs `manage_fields` and a field of the system, and removes only that field |
| Fields.CreateThenDeleteField | src/main/java/com/Datium/Datium/service/SystemDataService.java:82-157 | deleting a field just created restores the store |
| Fields.UpdateThenDeleteField | src/main/java/com/Datium/Datium/service/SystemDataService.java:109-157 | deleting after updating leaves the same store as deleting straight away |
| Fields.MaxOrderIndex | src/main/java/com/Datium/Datium/service/SystemDataService.java:382-387 | the greatest `orderIndex` of a table's fields, or none for a table without fields |
| Fields.CreateFieldForTable | src/main/java/com/Datium/Datium/service/SystemDataService.java:365-421 | a table field needs an existing table and an admitting plan limit; a null name, type, `required` or option violates NOT NULL, since options are saved untrimmed; a relation field needs a related table and adds, under one fresh id while keeping every earlier relationship, a one-to-many relationship in the table's system from the new field of the table to the related table and its display field (0 when none is given); a field of any other type leaves the relationships as they were; the stored field carries the requested name, type, `required` flag and options, and the requested `orderIndex` when one is given |
| Fields.FieldCountAfterAdd | src/main/java/com/Datium/Datium/service/PlanValidationService.java:62-67 | adding a field under a fresh id raises its system's field count by one |
| Fields.CreateFieldForTableRespectsLimit | src/main/java/com/Datium/Datium/service/SystemDataService.java:369-373 | after a successful table-level field creation, the system's field count is within the owner's plan limit |
| Fields.CreateFieldForTableIgnoresCaller | src/main/java/com/Datium/Datium/service/SystemDataService.java:365-421 | the table-level create checks no permission: every caller gets the same result |
| Fields.OrderIndexAppends | src/main/java/com/Datium/Datium/service/SystemDataService.java:382-387 | without a given order index, the new field goes after every field of its table, and a table's first field gets 0 |
| Fields.OrderIndexWraps | src/main/java/com/Datium/Datium/service/SystemDataService.java:384-385 | when the greatest order index is the largest `int`, the next one wraps around to the smallest |
| Fields.RelationFieldDeclaresRelationship | src/main/java/com/Datium/Datium/service/SystemDataService.java:400-418 | a relation field created on a table is afterwards governed by a relationship to its related table; a field of any other type adds no relationship |
| Fields.NewRelationshipGoverns | src/main/java/com/Datium/Datium/service/SystemDataService.java:405-418 | a relationship added under a fresh id is the one that governs its from-field |
| Deletion.DependentsOf | src/main/java/com/Datium/Datium/service/SystemDataService.java:515 | the dependents are exactly the records whose value on the field is the deleted id written in decimal, in ascending order |
| Deletion.Remove | src/main/java/com/Datium/Datium/service/SystemDataService.java:532-535 | removing a record drops it and all of its rows, and nothing else |
| Deletion.ShrinksTrans | src/main/java/com/Datium/Datium/service/SystemDataService.java:507-535 | removals compose: shrinking twice is shrinking |
| Deletion.ShrinksKeeps | src/main/java/com/Datium/Datium/service/SystemDataService.java:507-535 | what is gone stays gone, and remaining rows keep their records, as the rows shrink |
| Deletion.RemoveShrinks | src/main/java/com/Datium/Datium/service/SystemDataService.java:532-535 | removing a record shrinks the rows and keeps every remaining row with its record |
| Deletion.NoReferencesKept | src/main/java/com/Datium/Datium/service/SystemDataService.java:509-530 | rows that shrink gain no references to a record |
| Deletion.DeleteRows | src/main/java/com/Datium/Datium/service/SystemDataService.java:493-536 | deleting a record first deletes every dependent through every relationship into its table, then its own rows and itself; a missing record or permission fails, and running out of recursion depth is the uncaught overflow |
| Deletion.CascadeDependents | src/main/java/com/Datium/Datium/service/SystemDataService.java:517-529 | a dependent's failure aborts the whole delete as a cascade failure, except an overflow, which passes through unchanged |
| Deletion.DeleteRecord | src/main/java/com/Datium/Datium/service/SystemDataService.java:493-536 | the delete changes only records and value rows; all else in the store is kept |
| Deletion.DeleteRowsRemoves | src/main/java/com/Datium/Datium/service/SystemDataService.java:493-536 | a successful delete removes the record, leaves no row naming it on any relationship into its table, and keeps every remaining row with its record |
| Deletion.CascadeThenRemove | src/main/java/com/Datium/Datium/service/SystemDataService.java:509-535 | removing a record after a cascade that shrank the rows and left no reference to it keeps both properties |
| Deletion.CascadeRelsRemoves | src/main/java/com/Datium/Datium/service/SystemDataService.java:511-530 | after the loop over relationships, no remaining row on a relationship into the table names the record |
| Deletion.CascadeDependentsRemoves | src/main/java/com/Datium/Datium/service/SystemDataService.java:517-529 | after the loop over dependents, every one of them is gone |
| Deletion.CascadeWithoutReferences | src/main/java/com/Datium/Datium/service/SystemDataService.java:509-530 | a cascade through relationships whose from-fields hold no reference to the record deletes nothing |
| Deletion.DeleteUnreferenced | src/main/java/com/Datium/Datium/service/SystemDataService.java:493-536 | a record that nothing references is deleted on its own, together with its rows |
| Deletion.DeleteRecordRemoves | src/main/java/com/Datium/Datium/service/SystemDataService.java:493-536 | after a successful delete the record is gone, no row on a relationship into its table names it, and every remaining row still belongs to a record |
| Deletion.OnlyRemovesTrans | src/main/java/com/Datium/Datium/service/SystemDataService.java:507-535 | removals of records that referenced something compose across successive steps of a delete |
| Deletion.DeleteRowsSpares | src/main/java/com/Datium/Datium/service/SystemDataService.java:493-536 | a delete removes, besides the record itself, only records that had a value row on some relationship's from-field |
| Deletion.CascadeRelsSpares | src/main/java/com/Datium/Datium/service/SystemDataService.java:509-530 | the loop over relationships removes only records that had such a value row |
| Deletion.CascadeDependentsSpares | src/main/java/com/Datium/Datium/service/SystemDataService.java:517-529 | the loop over dependents removes only records that had such a value row |
| Deletion.StillReferencing | src/main/java/com/Datium/Datium/service/SystemDataService.java:515-523 | a dependent still present after earlier deletes keeps its value rows, so it still references what it did |
| Deletion.DeleteRecordSpares | src/main/java/com/Datium/Datium/service/SystemDataService.java:493-536 | any other record without a value row on a relationship's from-field survives a delete with its record and all its value rows unchanged |
| Deletion.DeleteRowsFuel | src/main/java/com/Datium/Datium/service/SystemDataService.java:523 | a delete that did not run out of depth gives the same result with one more level |
| Deletion.CascadeRelsFuel | src/main/java/com/Datium/Datium/service/SystemDataService.java:511-530 | the same for the loop over relationships |
| Deletion.CascadeDependentsFuel | src/main/java/com/Datium/Datium/service/SystemDataService.java:517-529 | the same for the loop over dependents |
| Deletion.DeleteRowsMoreFuel | src/main/java/com/Datium/Datium/service/SystemDataService.java:523 | any amount of extra depth leaves a result that was reached unchanged |
| Deletion.DeleteRecordMoreFuel | src/main/java/com/Datium/Datium/service/SystemDataService.java:493-536 | the outcome of a delete does not depend on the depth bound once it is large enough |
| Deletion.SelfRefBlocks | src/main/java/com/Datium/Datium/service/SystemDataService.java:515-523 | a record whose value names itself through a relationship into its own table is never deleted |
| Deletion.SelfRefSurvives | src/main/java/com/Datium/Datium/service/SystemDataService.java:509-535 | a delete that succeeds leaves a self-referencing record in place |
| Deletion.SelfRefSurvivesDeps | src/main/java/com/Datium/Datium/service/SystemDataService.java:517-529 | the same for the loop over dependents |
| Deletion.SelfRefBlocksDeps | src/main/java/com/Datium/Datium/service/SystemDataService.java:517-529 | a list of dependents that holds a self-referencing record makes the loop fail |
| Deletion.SelfRefSurvivesRels | src/main/java/com/Datium/Datium/service/SystemDataService.java:511-530 | the same for the loop over relationships |
| Deletion.SelfRefBlocksRels | src/main/java/com/Datium/Datium/service/SystemDataService.java:511-530 | the loop over relationships fails once it reaches the one through which the record names itself |
| Deletion.SelfReferenceNeverDeleted | src/main/java/com/Datium/Datium/service/SystemDataService.java:519-520 | whatever the depth, deleting a record that names itself through a relationship into its own table never succeeds: the cycle is not handled |
| Tables.Response | src/main/java/com/Datium/Datium/service/SystemTableService.java:113-129 | a table response carries the table's columns and the numbers of fields and records naming that table |
| Tables.ListTables | src/main/java/com/Datium/Datium/service/SystemTableService.java:46-53 | listing needs owner or member, and lists exactly the system's tables |
| Tables.GetTable | src/main/java/com/Datium/Datium/service/SystemTableService.java:55-64 | a table is shown exactly to an owner or member, and only when it belongs to the given system |
| Tables.CreateTable | src/main/java/com/Datium/Datium/service/SystemTableService.java:66-79 | any owner or member adds a table under a fresh id, with no name-uniqueness or plan check |
| Tables.UpdateTable | src/main/java/com/Datium/Datium/service/SystemTableService.java:81-96 | an update needs owner or member and a table of the system; it changes only that table's name and description |
| Tables.DeleteTable | src/main/java/com/Datium/Datium/service/SystemTableService.java:98-111 | a delete removes the table and exactly the relationships from or to it; nothing else changes |
| Tables.CreateThenGet | src/main/java/com/Datium/Datium/service/SystemTableService.java:55-79 | a table just created is found, with the given name and description |
| Tables.UpdateTableIdempotent | src/main/java/com/Datium/Datium/service/SystemTableService.java:81-96 | applying the same update twice equals applying it once |
| Tables.DeleteTableLeavesNoTargets | src/main/java/com/Datium/Datium/service/SystemTableService.java:107-110 | after a table is deleted, no relationship leads from or to it |
| Relationships.ParseType | src/main/java/com/Datium/Datium/service/SystemRelationshipService.java:68-72 | a null type throws; an unknown name becomes `many_to_many`; a known name is its own type |
| Relationships.ParseTypeRoundTrip | src/main/java/com/Datium/Datium/entity/SystemRelationship.java:31-33 | every type's name reads back as that type, and a name that is no type's reads as `many_to_many` |
| Relationships.SystemRelationshipIds | src/main/java/com/Datium/Datium/service/SystemRelationshipService.java:50 | exactly the system's relationships, in ascending id order |
| Relationships.ListRelationships | src/main/java/com/Datium/Datium/service/SystemRelationshipService.java:45-52 | listing needs owner or member and gives the system's relationships by ascending id |
| Relationships.CreateRelationship | src/main/java/com/Datium/Datium/service/SystemRelationshipService.java:54-76 | creation needs owner or member and non-null endpoints and type; the ids are stored as given, with no existence check |
| Relationships.DeleteRelationship | src/main/java/com/Datium/Datium/service/SystemRelationshipService.java:78-92 | a delete needs owner or member and a relationship of the given system, and removes only it |
| Relationships.CreatedIsListedLast | src/main/java/com/Datium/Datium/service/SystemRelationshipService.java:45-76 | a relationship just created is listed after all earlier ones |
| Relationships.CreateThenDelete | src/main/java/com/Datium/Datium/service/SystemRelationshipService.java:54-92 | deleting a relationship just created restores the store |
| Systems.ParseMode | src/main/java/com/Datium/Datium/service/SystemService.java:146-152 | a null mode keeps the current one; an unknown name becomes `none`; a known name is its own mode |
| Systems.ParseModeRoundTrip | src/main/java/com/Datium/Datium/service/SystemService.java:146-152 | every mode's name reads back as that mode, and any other name reads as `none` |
| Systems.ParseRole | src/main/java/com/Datium/Datium/service/SystemService.java:254-258 | a null role throws; an unknown name becomes `viewer`; a known name is its own role |
| Systems.ParseRoleRoundTrip | src/main/java/com/Datium/Datium/entity/SystemUser.java:24-26 | every member role's name reads back as that role |
| Systems.HashOf | src/main/java/com/Datium/Datium/service/SystemService.java:154-156 | a non-empty password is stored hashed; a null or empty one keeps the current hash |
| Systems.AddFields | src/main/java/com/Datium/Datium/service/SystemService.java:160-164 | the requested fields are all added exactly when each has a name, a type and no null option; each new field belongs to the system, without a table; existing fields are kept |
| Systems.AddMember | src/main/java/com/Datium/Datium/service/SystemService.java:242-261 | a member is added by e-mail with the parsed role; an existing member is left as it is; an unknown e-mail is an error |
| Systems.AddMembers | src/main/java/com/Datium/Datium/service/SystemService.java:166-170 | after adding a list, every listed user is a member, earlier memberships are kept, and new ones belong to this system; a list whose every entry names a user and a role is always added |
| Systems.AddPassword | src/main/java/com/Datium/Datium/service/SystemService.java:263-276 | a member password is stored exactly when the user is known and has none in this system yet |
| Systems.AddPasswords | src/main/java/com/Datium/Datium/service/SystemService.java:172-176 | the passwords are all stored exactly when every request names a user, none of them has a password in the system yet and no two name the same user; each named user then has the hash of its password, earlier rows are kept, only this system gains rows and nothing else changes |
| Systems.PasswordsAdmissibleCons | src/main/java/com/Datium/Datium/service/SystemService.java:263-276 | a list of password requests is acceptable exactly when its first one is saved and the rest are acceptable after it |
| Systems.Populate | src/main/java/com/Datium/Datium/service/SystemService.java:160-176 | the fields, members and passwords of a new system are added in that order: nothing but those three changes, every existing row is kept, as many fields as requests are added, each in the system with no table, every requested user joins, and new password rows belong to the system |
| Systems.PopulateSucceeds | src/main/java/com/Datium/Datium/service/SystemService.java:160-176 | populating succeeds when every request is acceptable and only if the field and password requests are; each requested password is then stored, hashed, for the user its e-mail names |
| Systems.CreateSystem | src/main/java/com/Datium/Datium/service/SystemService.java:136-179 | creation first checks the plan limit; the new system belongs to the caller with the parsed mode and hashed password, and every requested user becomes a member |
| Systems.CreateSystemStores | src/main/java/com/Datium/Datium/service/SystemService.java:136-179 | a successful creation adds the requested fields and passwords to the new system, keeps every earlier field and password row, and leaves tables, relationships, records, values, shares and invitations untouched |
| Systems.CreateSystemSucceeds | src/main/java/com/Datium/Datium/service/SystemService.java:136-179 | creation succeeds only if the plan admits the system, the name is present and every field and password request is acceptable, and it does succeed when besides every member request names a user and a role |
| Systems.CreateSystemRespectsLimit | src/main/java/com/Datium/Datium/service/PlanValidationService.java:27-39 | after a successful creation, the caller owns exactly one more system, and no more than the plan allows |
| Systems.UpdateSystem | src/main/java/com/Datium/Datium/service/SystemService.java:181-209 | only the owner updates; name, description and image are replaced, a null mode or empty password keeps the current one |
| Systems.DeleteSystem | src/main/java/com/Datium/Datium/service/SystemService.java:211-221 | only the owner deletes, and only the system row goes |
| Systems.MemberIds | src/main/java/com/Datium/Datium/service/SystemService.java:301-311 | the members of a system, once each and in ascending order |
| Systems.MemberEntries | src/main/java/com/Datium/Datium/service/SystemService.java:301-311 | each listed entry is a known member with its role's name, and every known member is listed |
| Systems.Response | src/main/java/com/Datium/Datium/service/SystemService.java:278-322 | `userCount` is the list's size, or 1 for an empty list; `isInvited` holds exactly for a caller who is a member and not the owner |
| Systems.ResponseOwnerFirst | src/main/java/com/Datium/Datium/service/SystemService.java:291-299 | a known owner heads the user list with role "owner" |
| Systems.ResponseListsMembers | src/main/java/com/Datium/Datium/service/SystemService.java:301-311 | every known member appears in the user list with its role |
| Systems.GetSystem | src/main/java/com/Datium/Datium/service/SystemService.java:114-134 | a system is shown exactly to its owner, a member, or a user holding a share of it |
| Systems.JoinedSystems | src/main/java/com/Datium/Datium/service/SystemService.java:73-92 | exactly the systems the user is a member of |
| Systems.SharedSystems | src/main/java/com/Datium/Datium/service/SystemService.java:74-102 | exactly the systems shared with the e-mail |
| Systems.AllSystems | src/main/java/com/Datium/Datium/service/SystemService.java:63-112 | a null or unknown user gets nothing; otherwise owned systems come first and no system is listed twice |
| Systems.AllSystemsAreVisible | src/main/java/com/Datium/Datium/service/SystemService.java:63-134 | a system is in a user's list exactly when that user may open it |
| Systems.GetStatistics | src/main/java/com/Datium/Datium/service/SystemService.java:327-421 | a null user gets all zeros; otherwise `totalSystems` counts the owned systems, each mode counter the owned systems in that mode, `totalUsers` the distinct owners and members of the owned systems, `totalRecords` the records of the owned systems, and the plan usage is reported |
| Systems.StatisticsCounters | src/main/java/com/Datium/Datium/service/SystemService.java:375-411 | consequences of the counters' values stated by `GetStatistics`: the three mode counters sum to the total, there are users exactly when there are systems, and records never exceed the store's |
| Systems.OwnersOfOwned | src/main/java/com/Datium/Datium/service/SystemService.java:391-401 | the distinct users of a user's systems are that user and their members, and nobody when the user owns no system |
| Systems.ModesPartition | src/main/java/com/Datium/Datium/service/SystemService.java:375-389 | the owned systems split by mode into three parts whose sizes sum to the number owned |
| Systems.CreateSystemCounted | src/main/java/com/Datium/Datium/service/SystemService.java:136-179 | a successful creation raises the caller's system count by one |
| Systems.GetCreateLimit | src/main/java/com/Datium/Datium/service/SystemService.java:448-459 | creation is offered exactly while the owned count is below 999 |
| Systems.CreateLimitIsNotThePlan | src/main/java/com/Datium/Datium/service/SystemService.java:448-459 | the create limit shown can offer creation that the plan check then refuses |
| Systems.VerifyPassword | src/main/java/com/Datium/Datium/service/SystemService.java:460-476 | a missing system is an error; only a `general` system with a non-empty hash can refuse a password |
| Systems.VerifyPasswordTable | src/main/java/com/Datium/Datium/service/SystemService.java:464-475 | `none` and `individual` accept; `general` without a hash accepts; `general` with a hash accepts exactly a non-null matching password |
| Systems.UpdateThenVerify | src/main/java/com/Datium/Datium/service/SystemService.java:181-209 | after switching a system to `general` with a password, that password verifies as far as the encoder matches its own hash |
| Invitations.Save | src/main/java/com/Datium/Datium/entity/SystemInvitation.java:7-9 | a save is refused exactly when another row has the same key, and otherwise keeps keys unique |
| Invitations.LeavingPendingNeverClashes | src/main/java/com/Datium/Datium/entity/SystemInvitation.java:7-9 | with the key on pending rows only, writing a non-pending invitation never clashes |
| Invitations.ParseAccess | src/main/java/com/Datium/Datium/service/InvitationService.java:100-105 | a null access type throws; an unknown name becomes `none`; a known name is its own type |
| Invitations.ParseAccessRoundTrip | src/main/java/com/Datium/Datium/entity/SystemInvitation.java:68-78 | every access type's name reads back as that type |
| Invitations.CreateChecks | src/main/java/com/Datium/Datium/service/InvitationService.java:49-84 | creation passes its checks exactly for the owner, known as a user, inviting a present e-mail that differs from the owner's up to case, of a non-member, with no pending invitation stored under that e-mail, below 500 members |
| Invitations.CreateInvitation | src/main/java/com/Datium/Datium/service/InvitationService.java:45-123 | creation succeeds exactly when the checks pass, role and access type are present and no pending invitation of the system is stored under the lower-cased e-mail; a missing role or access type is a null error; a created invitation is pending, for the lower-cased e-mail, with parsed role and access, a hash only for individual access with a non-empty password, and the given expiry (30 days by default) |
| Invitations.NewPendingClashes | src/main/java/com/Datium/Datium/entity/SystemInvitation.java:7-9 | a new pending invitation clashes with the unique key exactly when a pending invitation of its system is stored under the same e-mail, whatever statuses the key covers |
| Invitations.OnlyOwnerInvites | src/main/java/com/Datium/Datium/service/InvitationService.java:49-84 | only the owner invites, never their own e-mail, and only below 500 members |
| Invitations.Accepter | src/main/java/com/Datium/Datium/service/InvitationService.java:193-204 | the accepting account is the caller's existing id, or else the registered user with the given e-mail |
| Invitations.AcceptInvitation | src/main/java/com/Datium/Datium/service/InvitationService.java:168-230 | acceptance succeeds exactly when the caller matches, the invitation is pending and unexpired, the accepter exists, is not a member and has no clashing password row, and the key allows the accepted row; it adds the membership with the invitation's role, copies an individual password, and marks the invitation accepted |
| Invitations.AcceptAddsOneMember | src/main/java/com/Datium/Datium/service/InvitationService.java:206-210 | a successful accept raises the system's member count by one |
| Invitations.RejectInvitation | src/main/java/com/Datium/Datium/service/InvitationService.java:232-260 | a missing invitation is not found and a wrong caller is refused; rejection succeeds exactly when the caller matches, the invitation is pending and the key allows the rejected row; it marks the invitation rejected |
| Invitations.UnlinkedInvitationOpenToAnyId | src/main/java/com/Datium/Datium/service/InvitationService.java:173-181 | an invitation not yet linked to an account passes the identity check for any caller id |
| Invitations.CancelInvitation | src/main/java/com/Datium/Datium/service/InvitationService.java:262-280 | cancellation needs the inviter and a pending invitation, and marks it cancelled; it succeeds exactly then, unless the key as written already holds a cancelled invitation for the same system and e-mail |
| Invitations.ClashesAsSibling | src/main/java/com/Datium/Datium/entity/SystemInvitation.java:7-9 | a write clashes exactly with another invitation of the same system, e-mail and status, and only with pending ones when the key is limited to them |
| Invitations.ResendInvitation | src/main/java/com/Datium/Datium/service/InvitationService.java:282-302 | resending needs the inviter; the original is cancelled whatever its status, and a new pending copy with 30-day expiry and no password is created; since the cancelled original is written only at the flush before the pending-invitation query, a missing system, a non-owner, a missing inviter, a self-invitation or an existing member fails the resend with that error before the original is touched |
| Invitations.ChecksBeforeFlush | src/main/java/com/Datium/Datium/service/InvitationService.java:44-67 | the checks that run before the first query flushes pending writes pass exactly when the system exists and is owned by the inviter, the inviter exists and is not the invitee, and the invitee is not already a member; a failure is the error the full invitation checks report |
| Invitations.ResendOfOrphanNotFound | src/main/java/com/Datium/Datium/service/InvitationService.java:45-46 | resending an invitation whose system is gone fails with system-not-found, whatever the original's status |
| Invitations.ResendSucceeds | src/main/java/com/Datium/Datium/service/InvitationService.java:282-302 | re-sending succeeds exactly when the inviter asks, the cancelled original can be written, the inviter still owns the system and is not the invitee, the invitee is not a member, the system has room, and no other pending invitation of the system is stored under the e-mail or its lower-cased form |
| Invitations.PendingAfterLeaving | src/main/java/com/Datium/Datium/service/InvitationService.java:282-302 | once an invitation leaves the pending state, the pending invitations found for a system and e-mail are exactly its pending siblings |
| Invitations.ExpireEach | src/main/java/com/Datium/Datium/service/InvitationService.java:398-405 | the listed invitations become expired, the others are unchanged, and keys stay unique |
| Invitations.ExpireOldInvitations | src/main/java/com/Datium/Datium/service/InvitationService.java:394-406 | the sweep expires exactly the pending invitations past their expiry |
| Invitations.ExpireEachSucceeds | src/main/java/com/Datium/Datium/service/InvitationService.java:397-405 | under the key as written, expiring pending invitations one after the other succeeds exactly when none already has an expired sibling: expiring one never makes a later one clash |
| Invitations.ExpireOldInvitationsSucceeds | src/main/java/com/Datium/Datium/service/InvitationService.java:394-406 | under the key as written, on a store whose keys are unique, the sweep succeeds exactly when no overdue invitation already has an expired invitation for the same system and e-mail |
| Invitations.ExpireNeverFailsPendingOnly | src/main/java/com/Datium/Datium/service/InvitationService.java:394-406 | with the key on pending rows only, the sweep never fails |
| Invitations.StrictRole | src/main/java/com/Datium/Datium/service/InvitationService.java:356-374 | a role change accepts exactly the three role names, and rejects a null or unknown one |
| Invitations.MemberChecks | src/main/java/com/Datium/Datium/service/InvitationService.java:356-392 | member management needs the owner of an existing system and a current member |
| Invitations.UpdateInvitedUserRole | src/main/java/com/Datium/Datium/service/InvitationService.java:356-374 | the owner sets a member's role to a valid role name, and nothing else changes |
| Invitations.RemoveInvitedUser | src/main/java/com/Datium/Datium/service/InvitationService.java:376-392 | the owner removes a member's membership and password, and nothing else |
| Invitations.RemoveUndoesAccept | src/main/java/com/Datium/Datium/service/InvitationService.java:206-224 | removing a member who just accepted restores the memberships, and the passwords when the accepter had none |
| Invitations.SecondCancelRejectedAsWritten | src/main/java/com/Datium/Datium/entity/SystemInvitation.java:7-9 | with the key over every status, cancelling a second invitation to an e-mail already cancelled once is refused; with the key on pending rows it goes through |
| Invitations.CancelAlwaysPossiblePendingOnly | src/main/java/com/Datium/Datium/service/InvitationService.java:262-280 | with the key on pending rows only, the inviter can always cancel a pending invitation |
| Invitations.FlagsOf | src/main/java/com/Datium/Datium/service/InvitationService.java:475-479 | accept only if pending and unexpired; reject and cancel only if pending; resend only if rejected, expired or cancelled |
| Invitations.AcceptFlagMatches | src/main/java/com/Datium/Datium/service/InvitationService.java:169-191 | for the invitee, `canAccept` of `convertToResponse` is off exactly when accepting stops at the status or expiry check |
| Invitations.RejectFlagMatches | src/main/java/com/Datium/Datium/service/InvitationService.java:233-250 | for the invitee, `canReject` of `convertToResponse` is off exactly when rejecting stops at the status check |
| Invitations.CancelFlagMatches | src/main/java/com/Datium/Datium/service/InvitationService.java:263-272 | for the inviter, `canCancel` of `convertToResponse` is off exactly when cancelling stops at the status check |
| Invitations.ReceivedInvitations | src/main/java/com/Datium/Datium/service/InvitationService.java:125-156 | the invitations received by id or lower-cased e-mail, each once; no e-mail is an error |
| Invitations.GetSummary | src/main/java/com/Datium/Datium/service/InvitationService.java:304-354 | no e-mail gives zeros; no id gives no sent counts; with both, each sent counter is the number of the user's sent invitations with that status and the total is the number sent |
| Invitations.CancelLowersPendingSent | src/main/java/com/Datium/Datium/service/InvitationService.java:336-350 | cancelling a sent invitation lowers the inviter's pending-sent count by one and leaves accepted, rejected, expired and total as they were |
| Invitations.SummaryMatchesLists | src/main/java/com/Datium/Datium/service/InvitationService.java:317-334 | pending received counts the pending ones of the received list, each once; the sent counts by status sum to the total sent |
| Invitations.SentPartition | src/main/java/com/Datium/Datium/entity/SystemInvitation.java:76-78 | a user's sent invitations split by the five statuses |
| Accounts.PlanName | src/main/java/com/Datium/Datium/service/UserService.java:23-29 | plans 1, 2 and 3 are "Básico", "Pro" and "Enterprise"; any other plan, or none, is "Desconocido" |
| Accounts.ProfileOf | src/main/java/com/Datium/Datium/service/UserService.java:31-49 | a known user's profile shows their data and plan name; an unknown user is an error |
| Accounts.GetUserProfile | src/main/java/com/Datium/Datium/service/UserService.java:31-49 | the profile is found exactly for a known user |
| Accounts.UpdateProfile | src/main/java/com/Datium/Datium/service/UserService.java:51-85 | a new e-mail used by another account is refused; a missing value keeps the old one, a blank name is ignored, and e-mails stay unique |
| Accounts.BlankNameIgnored | src/main/java/com/Datium/Datium/service/UserService.java:69-71 | a name made only of blanks never replaces the current one |
| Accounts.ChangePassword | src/main/java/com/Datium/Datium/service/UserService.java:87-113 | the current password is checked before the new one's length of at least 6; only the stored hash changes |
| Accounts.ChangedPasswordIsCurrent | src/main/java/com/Datium/Datium/service/UserService.java:87-113 | after a change, the new password is the current one for the next change |
| Accounts.ChangePlan | src/main/java/com/Datium/Datium/service/UserService.java:115-142 | only plan ids 1 to 3 are accepted, and only the plan id changes |
| Accounts.ChangedPlanHasName | src/main/java/com/Datium/Datium/service/UserService.java:125-132 | after a plan change, the profile always names a known plan |
| Accounts.UpdateAvatar | src/main/java/com/Datium/Datium/service/UserService.java:144-170 | a null URL keeps the avatar; otherwise only the caller's avatar changes |
| Accounts.UpdateAvatarIdempotent | src/main/java/com/Datium/Datium/service/UserService.java:144-170 | setting the same avatar twice changes nothing the second time |
| Audit.LowerKeepsNoWildcards | src/main/java/com/Datium/Datium/repository/AuditLogRepository.java:17-19 | lower-casing a search text adds no `LIKE` wildcard |
| Audit.ColumnMatchesIsSubstring | src/main/java/com/Datium/Datium/repository/AuditLogRepository.java:17-19 | for a search without wildcards, a column matches exactly when it is non-null and contains the text, ignoring case |
| Audit.OrderNewest | src/main/java/com/Datium/Datium/repository/AuditLogRepository.java:20 | the rows are listed once each, newest first |
| Audit.LogsOf | src/main/java/com/Datium/Datium/repository/AuditLogRepository.java:14 | exactly the system's logs, newest first |
| Audit.SearchLogs | src/main/java/com/Datium/Datium/repository/AuditLogRepository.java:16-21 | exactly the system's logs whose action, details or address contain the text, newest first |
| Audit.FilterLogs | src/main/java/com/Datium/Datium/repository/AuditLogRepository.java:23-36 | exactly the system's logs meeting every given criterion, where a null criterion or empty search constrains nothing, newest first |
| Audit.FilterWithoutCriteria | src/main/java/com/Datium/Datium/repository/AuditLogRepository.java:23-36 | with no criteria, or an empty search alone, the filter is the plain list |
| Audit.FilterIsSearch | src/main/java/com/Datium/Datium/repository/AuditLogRepository.java:16-36 | a non-empty search alone filters exactly as the search does |
| Audit.AuditsOf | src/main/java/com/Datium/Datium/repository/SecurityAuditRepository.java:14 | exactly the system's security rows, newest first |
| Audit.SearchAudits | src/main/java/com/Datium/Datium/repository/SecurityAuditRepository.java:16-20 | exactly the system's security rows whose event or details contain the text, newest first |
| Audit.FilterAudits | src/main/java/com/Datium/Datium/repository/SecurityAuditRepository.java:22-36 | the log criteria plus an optional severity, which a row without severity never meets |
| Audit.SeverityCountIsFilterLength | src/main/java/com/Datium/Datium/repository/SecurityAuditRepository.java:41-42 | the count per severity equals the length of the severity filter |
| Audit.FromBound | src/main/java/com/Datium/Datium/controller/AuditController.java:170-171 | a start date becomes the first second of that day; none or empty is unbounded |
| Audit.ToBound | src/main/java/com/Datium/Datium/controller/AuditController.java:172-173 | an end date becomes the last second of that day; none or empty is unbounded |
| Audit.DayRangeIsInclusive | src/main/java/com/Datium/Datium/repository/AuditLogRepository.java:28-29 | at whole-second precision, a range from day a to day b keeps exactly the times of days a through b |
| Audit.DayRangeMissesLastFraction | src/main/java/com/Datium/Datium/repository/AuditLogRepository.java:28-29 | at finer than whole-second precision, the last instant of day b lies after the bound `T23:59:59`, so the range leaves out the fraction of day b's final second |
| Audit.ParseSeverity | src/main/java/com/Datium/Datium/controller/AuditController.java:240-246 | a null, empty or unknown severity means no severity filter; a known one matches its name ignoring case |
| Audit.ParseSeverityFacts | src/main/java/com/Datium/Datium/entity/SecurityAudit.java:32-33 | each severity reads back from its name in any case, and an unknown name filters as no severity does |
| Audit.UserName | src/main/java/com/Datium/Datium/controller/AuditController.java:69-81 | "Sistema" for no author, "Usuario eliminado" for a missing account, the account's name otherwise |
| Audit.UserEmail | src/main/java/com/Datium/Datium/controller/AuditController.java:69-81 | the e-mail is shown only for an existing account |
| Audit.LogEntries | src/main/java/com/Datium/Datium/controller/AuditController.java:57-86 | one entry per row, in the same order, with its author's name and e-mail |
| Audit.GetStatistics | src/main/java/com/Datium/Datium/controller/AuditController.java:257-281 | the total counts both kinds of row, and each severity count is that severity's rows |
| Audit.SeverityCountsBounded | src/main/java/com/Datium/Datium/controller/AuditController.java:268-274 | the severity counts sum to at most the security rows, so never exceed the total |
| Audit.AuditUsers | src/main/java/com/Datium/Datium/controller/AuditController.java:365-411 | exactly the existing accounts that wrote a log or security row of the system |
| Csv.DoubleQuotes | src/main/java/com/Datium/Datium/controller/AuditController.java:416 | doubling quotes never shortens a text |
| Csv.EscapeCsv | src/main/java/com/Datium/Datium/controller/AuditController.java:413-419 | null is empty; a value without comma, quote or newline is unchanged; any other is wrapped in quotes |
| Csv.EscapeAll | src/main/java/com/Datium/Datium/controller/AuditController.java:413-419 | each cell escaped, in order, and each escaped cell read on its own is one field holding exactly the original cell, whatever it contains |
| Csv.ReadPlainBack | src/main/java/com/Datium/Datium/controller/AuditController.java:417 | a field without special characters reads back as itself |
| Csv.ReadQuotedBack | src/main/java/com/Datium/Datium/controller/AuditController.java:416 | a quoted field with doubled quotes reads back as the original |
| Csv.ReadFieldBack | src/main/java/com/Datium/Datium/controller/AuditController.java:413-419 | any escaped field followed by a comma or nothing reads back as the original |
| Csv.EscapedRowReadsBack | src/main/java/com/Datium/Datium/controller/AuditController.java:413-419 | a row of escaped cells reads back as exactly those cells, whatever they contain (section 2 of RFC 4180, rules 6 and 7) |
| Csv.LogCells | src/main/java/com/Datium/Datium/controller/AuditController.java:327-335 | a log row has the five header columns |
| Csv.SecurityCells | src/main/java/com/Datium/Datium/controller/AuditController.java:337-345 | a security row has the five header columns |
| Csv.LogRowAsWritten | src/main/java/com/Datium/Datium/controller/AuditController.java:328-335 | a log row as the source writes it, with only action and details escaped, ends in a line feed (a raw cell holding a line feed puts another inside it) |
| Csv.SecurityRowAsWritten | src/main/java/com/Datium/Datium/controller/AuditController.java:338-345 | a security row as the source writes it, with only event and details escaped, ends in a line feed (a raw cell holding a line feed puts another inside it) |
| Csv.LogRow | src/main/java/com/Datium/Datium/controller/AuditController.java:328-335 | a fully escaped log row reads back as the row's five cells |
| Csv.SecurityRow | src/main/java/com/Datium/Datium/controller/AuditController.java:338-345 | a fully escaped security row reads back as the row's five cells |
| Csv.RowsAgreeOnPlainCells | src/main/java/com/Datium/Datium/controller/AuditController.java:328-345 | where the raw cells need no quoting, the rows as written equal the fully escaped rows |
| Csv.ReadPlainCell | src/main/java/com/Datium/Datium/controller/AuditController.java:413-419 | a plain cell followed by a comma is read as one column |
| Csv.CommaInUserNameSplitsRow | src/main/java/com/Datium/Datium/controller/AuditController.java:328-335 | a user name with a comma, written raw, makes a log row read back as six columns |
| Csv.Rows | src/main/java/com/Datium/Datium/controller/AuditController.java:326-346 | one row per item, written as the source writes it (only action, event and details escaped); the `logs` type gives log rows, anything else (null included) security rows; the row of an item whose raw cells need no quoting is its fully escaped row |
| Csv.EscapedRows | src/main/java/com/Datium/Datium/controller/AuditController.java:326-346 | the same rows with every cell escaped; each, without its final line feed, reads back as its item's five cells |
| Csv.Exported | src/main/java/com/Datium/Datium/controller/AuditController.java:304-363 | no data (null or empty) is refused first; csv and json, in any case, are the only formats, anything else is unsupported; json carries the items unchanged; csv carries the header of the type followed by the rows |
| Csv.ExportAudit | src/main/java/com/Datium/Datium/controller/AuditController.java:304-363 | the export as the source writes it: the same refusals and formats, and a csv body of the header followed by the rows as written |
| Csv.ExportAuditEscaped | src/main/java/com/Datium/Datium/controller/AuditController.java:304-363 | the corrected export: same outcome cases, csv body made of the fully escaped rows |
| Csv.ExportedRowsReadBack | src/main/java/com/Datium/Datium/controller/AuditController.java:325-346 | each row of the corrected export reads back as its item's five cells |
| Csv.ExportsAgreeOnPlainCells | src/main/java/com/Datium/Datium/controller/AuditController.java:325-346 | when no raw cell needs quoting, the export as written equals the corrected one and each of its rows reads back as its item's cells |
| Csv.ExportSplitsCommaUserName | src/main/java/com/Datium/Datium/controller/AuditController.java:328-335 | a single log whose author is named "a,b" is exported as the raw row under the header, which differs from the corrected export |
| Pagination.TotalPages | src/main/resources/static/Admin/Dashboard/audit.js:328 | the page count is the least number of 20-row pages covering the rows |
| Pagination.Load | src/main/resources/static/Admin/Dashboard/audit.js:207-214 | new data starts on page 1, which is a valid page |
| Pagination.Clamp | src/main/resources/static/Admin/Dashboard/audit.js:280-282 | an index is clamped into the array, and one already inside is kept |
| Pagination.PageRows | src/main/resources/static/Admin/Dashboard/audit.js:280-282 | a page shows at most 20 rows: those from its start offset, in order |
| Pagination.InfoOf | src/main/resources/static/Admin/Dashboard/audit.js:274-324 | with no rows loaded the text is "Mostrando 0 de 0"; otherwise it shows the total, and on a valid page its range is within the rows and starts and ends at the first and last row on the page |
| Pagination.ControlsOf | src/main/resources/static/Admin/Dashboard/audit.js:327-343 | paging is hidden with at most one page; "previous" is disabled exactly on page 1 and "next" exactly on the last page |
| Pagination.Previous | src/main/resources/static/Admin/Dashboard/audit.js:345-351 | back one page unless on the first; the page stays valid |
| Pagination.Next | src/main/resources/static/Admin/Dashboard/audit.js:353-360 | forward one page unless on the last; the page stays valid |
| Pagination.ButtonsMatchMoves | src/main/resources/static/Admin/Dashboard/audit.js:340-360 | a disabled button is one that would not move |
| Pagination.NextThenPrevious | src/main/resources/static/Admin/Dashboard/audit.js:345-360 | forward then back returns to the same page |
| Pagination.PagesCoverRows | src/main/resources/static/Admin/Dashboard/audit.js:280-282 | the pages, taken in order, are the rows |
| Pagination.CountersOf | src/main/resources/static/Admin/Dashboard/audit.js:487-500 | the total is the row count, and the three severity counters sum to at most it |
| Pagination.ThreeDisjointCounts | src/main/resources/static/Admin/Dashboard/audit.js:491-493 | counters of three severities that no row has twice sum to at most the rows |
| Text.WrapInt32 | src/main/java/com/Datium/Datium/service/SystemDataService.java:385 | the `int` congruent to a number modulo 2^32 |
| Text.NatToString | src/main/java/com/Datium/Datium/service/SystemDataService.java:515 | the shortest decimal numeral of a number |
| Text.IntToString | src/main/java/com/Datium/Datium/service/SystemDataService.java:515 | `String.valueOf` on an `int`: an optional minus sign, then a numeral |
| Text.ParseInt | src/main/java/com/Datium/Datium/service/SystemDataService.java:460 | `Integer.parseInt`: an optional sign and digits within the `int` range, or failure |
| Text.NatToStringValue | src/main/java/com/Datium/Datium/service/SystemDataService.java:515 | the numeral's digits denote the number |
| Text.ParseIntOfIntToString | src/main/java/com/Datium/Datium/service/SystemDataService.java:460-515 | every printed `int` parses back to itself |
| Text.IntToStringInjective | src/main/java/com/Datium/Datium/service/SystemDataService.java:515 | distinct ids print differently, so a printed id names one record |
| Text.ParseIntAcceptsLeadingZero | src/main/java/com/Datium/Datium/service/SystemDataService.java:460 | the parser also accepts numerals the printer never writes, so "07" names record 7 on write while only "7" is found on cascade |
| Text.LowerIdempotent | src/main/java/com/Datium/Datium/service/InvitationService.java:89 | lower-casing twice changes nothing more |
| Text.EqualsIgnoreCaseFacts | src/main/java/com/Datium/Datium/service/InvitationService.java:56-58 | comparing ignoring case is an equivalence, and a lower-cased copy equals the original up to case |
| Text.Trim | src/main/java/com/Datium/Datium/service/SystemDataService.java:101 | `trim` removes only leading and trailing characters up to space, and leaves neither at either end |
| Text.TrimEmptyIffBlank | src/main/java/com/Datium/Datium/service/UserService.java:69-71 | a text trims to nothing exactly when it is blank |
| Text.LikePrefix | src/main/java/com/Datium/Datium/repository/AuditLogRepository.java:17-19 | a pattern without wildcards followed by `%` matches exactly the texts it begins |
| Text.LikeAnything | src/main/java/com/Datium/Datium/repository/AuditLogRepository.java:17-19 | `%` alone matches every text |
| Text.LikeLeadingPercent | src/main/java/com/Datium/Datium/repository/AuditLogRepository.java:17-19 | a leading `%` matches a text exactly when the rest matches one of its suffixes |
| Text.LikeContains | src/main/java/com/Datium/Datium/repository/AuditLogRepository.java:17-19 | `%`, a wildcard-free text, `%` is a substring test |
| Query.CountIsFilterLength | src/main/resources/static/Admin/Dashboard/audit.js:491-493 | counting matches is the length of the filtered list |
| Query.CountsOfDisjoint | src/main/resources/static/Admin/Dashboard/audit.js:491-493 | counts of disjoint predicates add up to the count of either, so at most the length |
| Query.FilterKeepsIncreasing | src/main/java/com/Datium/Datium/service/SystemRelationshipService.java:50 | filtering an ascending list keeps it ascending |
| Query.SortBy | src/main/java/com/Datium/Datium/repository/SystemFieldRepository.java:12 | an ordering is a permutation of its input, sorted by the key |
| Query.SortByKeepsTies | src/main/java/com/Datium/Datium/repository/SystemFieldRepository.java:12 | sorting ids listed in ascending order keeps ids with equal keys in ascending order, as a stable sort does |
| Query.IndexByLastWins | src/main/java/com/Datium/Datium/service/SystemDataService.java:211-215 | a map filled in list order holds, for each key, the last element with that key |
| Query.AppendNew | src/main/java/com/Datium/Datium/service/SystemService.java:76-102 | a merge guarded by a seen-set keeps the earlier list as a prefix, adds no duplicates, and lists exactly the earlier ones plus the present candidates |
| Scenario.ValidAuthorAccepted | verification_script.py:104-116 | in the Library system, a book whose author reference is an existing author's id is created |
| Scenario.UnknownAuthorRejected | verification_script.py:118-136 | a book whose author reference is 9999, the id of no record, is refused as "related record not found", and nothing is stored |

## Left out

- HTTP controllers other than the audit controller's helpers, JWT
  extraction, and the mapping of errors to status codes: request plumbing.
  Errors are kept as distinct `Error` values instead of messages.
- Creation and update timestamps (`createdAt`, `updatedAt`): they drive no
  rule except audit ordering and invitation expiry, where a time is a
  parameter.
- Calendar dates. A date parameter is a day number with seconds of 86400;
  malformed date strings, which make `LocalDate.parse` throw, are not
  modelled.
- Ordering ties: `ORDER BY createdAt DESC` leaves ties to the database.
  The model breaks them by ascending id (`Query.SortByKeepsTies`).
- Queries without an `ORDER BY`, and `HashMap` iteration, are taken to list
  in ascending id order. That order decides which of several errors is
  reported, which relationship governs a field that several relationships
  start from (the one with the greatest id), and which of several fields
  with one name and one `orderIndex` the name stands for (the one with the
  greatest id).
- Value rows have no id of their own in the model: a row is keyed by its
  (record id, field id) pair. `findByFieldIdAndValue` and `findByRecordId`
  return rows in value-row id order, i.e. insertion order. The model lists
  instead a field's dependent records by ascending record id
  (`Deletion.DependentsOf`) and a record's rows by ascending field id
  (`Records.RowFields`). Where the two orders differ, the model may report
  a different dependent's failure first. A response whose record has two
  fields of one name may also show a different one of the two values.
- `toLowerCase`, `equalsIgnoreCase` and the database collation are modelled
  on ASCII letters; e-mails are compared exactly where the Java code uses
  `equals` or a repository lookup. Unicode case mapping and accent-folding
  collations are not modelled.
- Text.ParseInt: accepts ASCII digits only. `Integer.parseInt` also
  accepts digits of other scripts (any Unicode decimal digit), so a value
  written with them names a record in the source and no record here.
- Audit.DayRangeIsInclusive: times are whole seconds. The stored
  `createdAt` carries fractions of a second, and a row in the final second
  of the last day, after `23:59:59`, is left out by the source
  (`DayRangeMissesLastFraction`); the filters here see whole seconds only.
- Accounts.ChangePassword: the length of at least 6 is counted in
  characters, not UTF-16 code units.
- Password hashing: `Encoder` is a parameter with uninterpreted `encode`
  and `matches`. A null current password, which makes the encoder throw,
  is the error `NullValue`.
- JSON cells of a type other than text, which make the export throw a
  `ClassCastException`: items are records of optional strings.
- Invitation audit rows (`createAudit`): an append-only log that no rule
  reads.
- The daily activity series of `SystemService.getStatistics`
  (`SystemService.java:423-443`): calendar arithmetic.
- Id allocation: a fresh id is one more than the largest id in use, so the
  id of a deleted newest row can be issued again, unlike `AUTO_INCREMENT`.
- Deletion.DeleteRecord: the recursion of the cascade is bounded by
  `fuel`. Running out stands for the uncaught stack overflow of an
  unbounded recursion. The results reached are independent of the bound
  (`DeleteRecordMoreFuel`), but termination without a bound is not proved.
- `getFieldsByTable`, `getRecords` and `getRecordsByTable`: read-only
  listings built from the same responses modelled here.
- The system-level `updateRecord` (`SystemDataService.java:242-283`): the
  record-level `updateRecord`, which the pages call, is modelled.
- `getSentInvitations`: a plain listing by inviter.
- Column lengths and the order of the member list beyond "owner first".
- `getSystemById` with a null caller id: the caller is always a known id
  here.
- A share lookup that finds several shares for one e-mail: a share is
  present or absent.
- `deleteSystem` and `deleteTable` leave fields, records and value rows of
  the deleted system or table in place, as the source does. No rule about
  those orphans is stated.
- `transferFields`, `importFields` and `getAvailableFieldsToImport`:
  their implementations are not part of this model.
- `SystemTableColumnService`, `FileUploadController`, `DataInitializer`
  and `AuthService`: column CRUD with no rule, file storage, database
  seeding, and authentication.
- The browser scripts other than the paging and counters of `audit.js`:
  DOM rendering, requests and charts.

## Findings

| source | as written | input that shows it | evidently intended | confidence | as-written member | corrected member |
|---|---|---|---|---|---|---|
| src/main/java/com/Datium/Datium/entity/SystemInvitation.java:7-9 | the unique key `unique_pending_invitation` is (system_id, invitee_email, status) over every status | system 1 holds invitation 1 to "bo@x", cancelled, and invitation 2 to "bo@x", pending; the inviter cancels 2, and the save hits the key of 1 | at most one pending invitation per system and e-mail; rows that leave pending never clash | not executed | Invitations.SecondCancelRejectedAsWritten | Invitations.CancelAlwaysPossiblePendingOnly |
| src/main/java/com/Datium/Datium/controller/AuditController.java:328-335 | a log row writes the date, user name and address with `%s`, unescaped | a log whose author is named "a,b" gives a row that reads back as six columns under a five-column header | every cell escaped, so each row reads back as its five cells | not executed | Csv.ExportSplitsCommaUserName | Csv.ExportAuditEscaped |
