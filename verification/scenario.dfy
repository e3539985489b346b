/** The end-to-end scenario of the repository's own check script: a
    "Library" system with an "Authors" table and a "Books" table whose
    "AuthorRef" column refers to Authors. A book naming an existing author
    is stored; a book naming author 9999, which does not exist, is
    refused. */
module Scenario {
  import opened Common
  import opened Text
  import opened Entities
  import opened Plans
  import opened Records

  /** The store after the script's first six steps, described by what the
      record check relies on: `books` is a table whose system's plan still
      admits a record, `authorRef` is governed by a relationship to
      `authors`, `title` by none, and `author` is a record of `authors`. */
  predicate LibraryReady(st: Store, books: Id, authors: Id, title: Id, authorRef: Id, author: Id) {
    && books in st.tables && RowsHaveRecords(st)
    && ValidateForSystem(st, st.tables[books].systemId, RecordsPerSystem).Pass?
    && authorRef in TableTargets(st, books) && TableTargets(st, books)[authorRef] == authors
    && title !in TableTargets(st, books) && title != authorRef
    && author in st.records && st.records[author].tableId == Some(authors) && IsInt32(author)
  }

  /** The request of a book: its title, then its author reference. */
  function Book(title: Id, authorRef: Id, name: string, reference: string): (es: Entries)
    ensures title != authorRef ==> DistinctKeys(es)
  {
    [(title, Some(name)), (authorRef, Some(reference))]
  }

  /** The two entries of a book, the title and the author reference, as
      the check sees them: the title is never checked, so the outcome is
      that of the reference. */
  lemma {:induction false} BookEntries(records: map<Id, Record>, targets: map<Id, Id>, title: Id, authorRef: Id,
                                       name: string, reference: string)
    requires title !in targets
    ensures CheckEntries(records, targets, Book(title, authorRef, name, reference))
         == CheckEntry(records, targets, authorRef, Some(reference))
  {
    var values := Book(title, authorRef, name, reference);
    assert CheckEntry(records, targets, title, Some(name)) == Pass;
    assert values[1..] == [(authorRef, Some(reference))];
    assert CheckEntries(records, targets, values[1..][1..]) == Pass;
  }

  /** The reference checks of a creation still see every stored record. */
  lemma StoredRecordSeen(st: Store, rec: Record, rid: Id)
    requires rid in st.records
    ensures rid in RecordsWithNew(st, rec) && RecordsWithNew(st, rec)[rid] == st.records[rid]
  {
    assert rid != Fresh(st.records);
  }

  /** Step 7: a book whose author reference is the author's id is
      created. */
  lemma ValidAuthorAccepted(st: Store, books: Id, authors: Id, title: Id, authorRef: Id, author: Id, userId: Id)
    requires LibraryReady(st, books, authors, title, authorRef, author)
    ensures CreateRecordForTable(st, books, Book(title, authorRef, "Harry Potter", IntToString(author)), userId).Ok?
  {
    var values := Book(title, authorRef, "Harry Potter", IntToString(author));
    var rec := Record(st.tables[books].systemId, Some(books), userId);
    var records := RecordsWithNew(st, rec);
    var targets := TableTargets(st, books);
    StoredRecordSeen(st, rec, author);
    IdOfTargetRecordPasses(records, targets, authorRef, author);
    BookEntries(records, targets, title, authorRef, "Harry Potter", IntToString(author));
    CreateRecordForTableSucceeds(st, books, values, userId);
  }

  /** Step 8: a book whose author reference is 9999, the id of no record,
      is refused with "related record not found" and nothing is stored —
      unless the new book itself would receive id 9999, in which case the
      reference names a book and is refused as pointing at the wrong
      table. */
  lemma UnknownAuthorRejected(st: Store, books: Id, authors: Id, title: Id, authorRef: Id, author: Id, userId: Id)
    requires LibraryReady(st, books, authors, title, authorRef, author)
    requires 9999 !in st.records
    ensures Fresh(st.records) != 9999 ==>
      CreateRecordForTable(st, books, Book(title, authorRef, "Fake Book", IntToString(9999)), userId)
        == Err(RelatedRecordNotFound)
    ensures Fresh(st.records) == 9999 && books != authors ==>
      CreateRecordForTable(st, books, Book(title, authorRef, "Fake Book", IntToString(9999)), userId)
        == Err(WrongTargetTable)
  {
    var values := Book(title, authorRef, "Fake Book", IntToString(9999));
    var rec := Record(st.tables[books].systemId, Some(books), userId);
    var records := RecordsWithNew(st, rec);
    var targets := TableTargets(st, books);
    BookEntries(records, targets, title, authorRef, "Fake Book", IntToString(9999));
    if Fresh(st.records) != 9999 {
      MissingIdRejected(records, targets, authorRef);
      CreateRecordForTableFails(st, books, values, userId, RelatedRecordNotFound);
    } else if books != authors {
      WrongTableRejected(records, targets, authorRef, books);
      CreateRecordForTableFails(st, books, values, userId, WrongTargetTable);
    }
  }

  /** The reference "9999" to no record is refused as not found. */
  lemma MissingIdRejected(records: map<Id, Record>, targets: map<Id, Id>, fieldId: Id)
    requires fieldId in targets && 9999 !in records
    ensures CheckEntry(records, targets, fieldId, Some(IntToString(9999))) == Fail(RelatedRecordNotFound)
  {
    ParseIntOfIntToString(9999);
  }

  /** The reference "9999" to a record of another table than the target
      is refused as pointing at the wrong table. */
  lemma WrongTableRejected(records: map<Id, Record>, targets: map<Id, Id>, fieldId: Id, tableId: Id)
    requires fieldId in targets && 9999 in records
    requires records[9999].tableId == Some(tableId) && tableId != targets[fieldId]
    ensures CheckEntry(records, targets, fieldId, Some(IntToString(9999))) == Fail(WrongTargetTable)
  {
    ParseIntOfIntToString(9999);
  }
}
