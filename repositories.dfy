/** The persistent store behind the services: one table per entity. */
module Repositories {
  import opened Entities

  /** Every book is stored under its own id. */
  ghost predicate BooksKeyed(books: map<BookId, Book>)
  {
    forall id :: id in books ==> books[id].id == id
  }

  /** Every user is stored under its own username, so no two users share one. */
  ghost predicate UsersKeyed(users: map<string, User>)
  {
    forall name :: name in users ==> users[name].username == name
  }

  class Database {
    var books: map<BookId, Book>
    var nextBookId: BookId
    var records: map<RecordId, IssueRecord>
    var nextRecordId: RecordId
    var users: map<string, User>

    /**
     * Identity keys are positive and below the next one to be handed out,
     * rows are keyed by their own id or username, and every issue record
     * names a registered user and a book id already handed out. A record's
     * book may have been deleted since, but its id is never handed out again.
     */
    ghost predicate Valid()
      reads this
    {
      && 1 <= nextBookId
      && 1 <= nextRecordId
      && BooksKeyed(books)
      && (forall id :: id in books ==> 1 <= id < nextBookId)
      && (forall id :: id in records ==> records[id].id == id && 1 <= id < nextRecordId)
      && (forall id :: id in records ==> records[id].bookId < nextBookId)
      && (forall id :: id in records ==> records[id].username in users)
      && UsersKeyed(users)
    }

    constructor ()
      ensures Valid()
      ensures books == map[] && records == map[] && users == map[]
    {
      books, nextBookId := map[], 1;
      records, nextRecordId := map[], 1;
      users := map[];
    }
  }
}
