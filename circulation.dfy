/**
 * The borrowing workflow: issuing a copy of a book to the caller and taking
 * it back. An issue record goes from open (not returned) to returned and
 * never back.
 */
module Circulation {
  import opened Entities
  import opened Repositories

  /** Days from the issue date to the due date. */
  const LoanDays: int := 14

  /** The catalog's intended invariant for one book: available exactly when in stock. */
  predicate Consistent(b: Book)
  {
    b.quantity >= 0 && b.isAvailable == (b.quantity > 0)
  }

  /** The test a book must pass before a copy is lent. */
  predicate Issuable(b: Book)
  {
    !(b.quantity <= 0 || !b.isAvailable)
  }

  /**
   * The book after one copy is lent: one copy fewer, and unavailable once
   * none is left. Whatever the book was before, it is consistent afterwards.
   */
  function AfterIssue(b: Book): (r: Book)
    requires Issuable(b)
    ensures r.quantity == b.quantity - 1 && r.quantity >= 0
    ensures Consistent(r)
    ensures r.(quantity := b.quantity, isAvailable := b.isAvailable) == b
  {
    var q := b.quantity - 1;
    b.(quantity := q, isAvailable := if q == 0 then false else b.isAvailable)
  }

  /**
   * The book after one copy comes back: one copy more and available, with
   * no bound on the number of copies. The increment is guarded against
   * leaving the 32-bit range (see AfterReturnAsWritten).
   */
  function AfterReturn(b: Book): (r: Book)
    requires b.quantity < Int32Max
    ensures r.quantity == b.quantity + 1 && r.isAvailable
    ensures b.quantity >= 0 ==> Consistent(r)
    ensures r.(quantity := b.quantity, isAvailable := b.isAvailable) == b
  {
    b.(quantity := b.quantity + 1, isAvailable := true)
  }

  /** The record of a loan that has just ended on `today`. */
  function Closed(rec: IssueRecord, today: Day): (r: IssueRecord)
    requires !rec.isReturned
    ensures r.isReturned && r.returnDate == today
    ensures r.(returnDate := rec.returnDate, isReturned := false) == rec
  {
    rec.(returnDate := today, isReturned := true)
  }

  /** The open loans of a book: records of it not yet returned. */
  ghost function OpenLoans(records: map<RecordId, IssueRecord>, bookId: BookId): set<RecordId>
  {
    set id | id in records && records[id].bookId == bookId && !records[id].isReturned
  }

  /**
   * The copies of a book the library owns: those on the shelf plus those
   * out on loan.
   */
  ghost function Stock(books: map<BookId, Book>, records: map<RecordId, IssueRecord>, bookId: BookId): int
  {
    (if bookId in books then books[bookId].quantity else 0) + |OpenLoans(records, bookId)|
  }

  /** Records already returned stay in the ledger, unchanged. */
  ghost predicate ReturnedKept(before: map<RecordId, IssueRecord>, after: map<RecordId, IssueRecord>)
  {
    forall id :: id in before && before[id].isReturned ==> id in after && after[id] == before[id]
  }

  /** Opening a record adds it to the open loans of its book and of no other. */
  lemma OpenLoansAfterOpen(records: map<RecordId, IssueRecord>, rec: IssueRecord, b: BookId)
    requires rec.id !in records && !rec.isReturned
    ensures rec.id !in OpenLoans(records, b)
    ensures OpenLoans(records[rec.id := rec], b)
            == if rec.bookId == b then OpenLoans(records, b) + {rec.id} else OpenLoans(records, b)
  {
  }

  /** Closing an open record removes it from the open loans of its book only. */
  lemma OpenLoansAfterClose(records: map<RecordId, IssueRecord>, recordId: RecordId, today: Day, b: BookId)
    requires recordId in records && !records[recordId].isReturned
    ensures records[recordId].bookId == b ==> recordId in OpenLoans(records, b)
    ensures OpenLoans(records[recordId := Closed(records[recordId], today)], b)
            == OpenLoans(records, b) - {recordId}
  {
  }

  /**
   * Lending a copy moves it from the shelf to a new open record, so every
   * book's stock stays the same.
   */
  lemma IssueConservesStock(
    books: map<BookId, Book>, records: map<RecordId, IssueRecord>, bookId: BookId, rec: IssueRecord)
    requires bookId in books && Issuable(books[bookId])
    requires rec.id !in records && rec.bookId == bookId && !rec.isReturned
    ensures forall b :: Stock(books[bookId := AfterIssue(books[bookId])], records[rec.id := rec], b)
                        == Stock(books, records, b)
  {
    var books', records' := books[bookId := AfterIssue(books[bookId])], records[rec.id := rec];
    forall b
      ensures Stock(books', records', b) == Stock(books, records, b)
    {
      OpenLoansAfterOpen(records, rec, b);
    }
  }

  /**
   * Taking a copy back moves it from an open record to the shelf, so every
   * book's stock stays the same.
   */
  lemma ReturnConservesStock(
    books: map<BookId, Book>, records: map<RecordId, IssueRecord>, recordId: RecordId, today: Day)
    requires recordId in records && !records[recordId].isReturned
    requires records[recordId].bookId in books && books[records[recordId].bookId].quantity < Int32Max
    ensures var bookId := records[recordId].bookId;
            forall b :: Stock(books[bookId := AfterReturn(books[bookId])],
                              records[recordId := Closed(records[recordId], today)], b)
                        == Stock(books, records, b)
  {
    var bookId := records[recordId].bookId;
    var books' := books[bookId := AfterReturn(books[bookId])];
    var records' := records[recordId := Closed(records[recordId], today)];
    forall b
      ensures Stock(books', records', b) == Stock(books, records, b)
    {
      OpenLoansAfterClose(records, recordId, today, b);
    }
  }

  class IssueRecordService {
    const db: Database

    constructor (db: Database)
      ensures this.db == db
    {
      this.db := db;
    }

    /**
     * Lends one copy of a book to the caller `username` on day `today`.
     * Rejects, changing nothing, an unknown book, a book out of stock or
     * marked unavailable, and then a caller who is not a registered user.
     * Otherwise opens a record due in LoanDays days and takes one copy off
     * the shelf; no other book or record changes and each book's stock is
     * preserved.
     */
    method IssueTheBook(bookId: BookId, username: string, today: Day) returns (r: Result<IssueRecord>)
      requires db.Valid()
      modifies db
      ensures db.Valid()
      ensures r.Ok? <==> bookId in old(db.books) && Issuable(old(db.books[bookId])) && username in old(db.users)
      ensures bookId !in old(db.books) ==> r == Err(BookNotFound)
      ensures bookId in old(db.books) && !Issuable(old(db.books[bookId])) ==> r == Err(BookNotAvailable)
      ensures bookId in old(db.books) && Issuable(old(db.books[bookId])) && username !in old(db.users) ==>
                r == Err(UserNotFound)
      ensures r.Err? ==> unchanged(db)
      ensures r.Ok? ==>
                && r.value == IssueRecord(old(db.nextRecordId), bookId, username, today, today + LoanDays, false)
                && r.value.id !in old(db.records)
                && db.records == old(db.records)[r.value.id := r.value]
                && db.books == old(db.books)[bookId := AfterIssue(old(db.books[bookId]))]
                && db.users == old(db.users)
                && db.nextBookId == old(db.nextBookId)
                && db.nextRecordId == old(db.nextRecordId) + 1
      ensures ReturnedKept(old(db.records), db.records)
      ensures forall b :: Stock(db.books, db.records, b) == Stock(old(db.books), old(db.records), b)
    {
      if bookId !in db.books {
        return Err(BookNotFound);
      }
      var book := db.books[bookId];
      if book.quantity <= 0 || !book.isAvailable {
        return Err(BookNotAvailable);
      }
      if username !in db.users {
        return Err(UserNotFound);
      }
      var user := db.users[username];
      var rec := IssueRecord(db.nextRecordId, bookId, user.username, today, today + LoanDays, false);

      book := book.(quantity := book.quantity - 1);
      if book.quantity == 0 {
        book := book.(isAvailable := false);
      }

      IssueConservesStock(db.books, db.records, bookId, rec);
      db.books := db.books[bookId := book];
      db.records := db.records[rec.id := rec];
      db.nextRecordId := db.nextRecordId + 1;
      r := Ok(rec);
    }

    /**
     * Ends the loan recorded under `recordId` on day `today`. Rejects,
     * changing nothing, an unknown record, a record already returned, a
     * record whose book is no longer stored and a return that would take
     * the quantity past the 32-bit range. Otherwise puts one copy back on
     * the shelf, marks the book available and closes the record; nothing
     * else changes and each book's stock is preserved.
     */
    method ReturnTheBook(recordId: RecordId, today: Day) returns (r: Result<IssueRecord>)
      requires db.Valid()
      modifies db
      ensures db.Valid()
      ensures r.Ok? <==>
                && recordId in old(db.records)
                && !old(db.records[recordId]).isReturned
                && old(db.records[recordId]).bookId in old(db.books)
                && old(db.books[db.records[recordId].bookId]).quantity < Int32Max
      ensures recordId !in old(db.records) ==> r == Err(RecordNotFound)
      ensures recordId in old(db.records) && old(db.records[recordId]).isReturned ==> r == Err(AlreadyReturned)
      ensures (recordId in old(db.records) && !old(db.records[recordId]).isReturned
               && old(db.records[recordId]).bookId !in old(db.books)) ==>
                r == Err(BookNotFound)
      ensures (recordId in old(db.records) && !old(db.records[recordId]).isReturned
               && old(db.records[recordId]).bookId in old(db.books)
               && old(db.books[db.records[recordId].bookId]).quantity == Int32Max) ==>
                r == Err(QuantityOverflow)
      ensures r.Err? ==> unchanged(db)
      ensures r.Ok? ==>
                && r.value == Closed(old(db.records[recordId]), today)
                && db.records == old(db.records)[recordId := r.value]
                && db.books == old(db.books)[r.value.bookId := AfterReturn(old(db.books[r.value.bookId]))]
                && db.users == old(db.users)
                && db.nextBookId == old(db.nextBookId)
                && db.nextRecordId == old(db.nextRecordId)
      ensures ReturnedKept(old(db.records), db.records)
      ensures forall b :: Stock(db.books, db.records, b) == Stock(old(db.books), old(db.records), b)
    {
      if recordId !in db.records {
        return Err(RecordNotFound);
      }
      var rec := db.records[recordId];
      if rec.isReturned {
        return Err(AlreadyReturned);
      }
      if rec.bookId !in db.books {
        return Err(BookNotFound);
      }
      var book := db.books[rec.bookId];
      if book.quantity == Int32Max {
        return Err(QuantityOverflow);
      }
      book := book.(quantity := book.quantity + 1);
      book := book.(isAvailable := true);
      ReturnConservesStock(db.books, db.records, recordId, today);
      db.books := db.books[rec.bookId := book];

      rec := rec.(returnDate := today);
      rec := rec.(isReturned := true);
      db.records := db.records[recordId := rec];
      r := Ok(rec);
    }
  }

  // The 32-bit increment as the source writes it.

  /** Java `int` arithmetic: the value wrapped into the 32-bit range. */
  function WrapInt32(x: int): (r: Int32)
    ensures (x - r) % 0x1_0000_0000 == 0
    ensures Int32Min <= x <= Int32Max ==> r == x
  {
    (x - Int32Min) % 0x1_0000_0000 + Int32Min
  }

  /**
   * `returnTheBook` as written: `quantity + 1` on a Java Integer, which
   * wraps around at the top of the range, then availability forced on.
   * It agrees with AfterReturn everywhere except at the largest quantity.
   */
  function AfterReturnAsWritten(b: Book): (r: Book)
    ensures r.isAvailable
    ensures b.quantity < Int32Max ==> r == AfterReturn(b)
  {
    b.(quantity := WrapInt32(b.quantity + 1), isAvailable := true)
  }

  /**
   * Returning a copy of a consistent book already holding the largest
   * quantity leaves it marked available with a negative quantity.
   */
  lemma ReturnAtLargestQuantityBreaksConsistency(b: Book)
    requires b.quantity == Int32Max && b.isAvailable
    ensures Consistent(b)
    ensures AfterReturnAsWritten(b).quantity == Int32Min
    ensures !Consistent(AfterReturnAsWritten(b))
  {
  }
}
