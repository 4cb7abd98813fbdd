/**
 * Clients of the services: what a caller can conclude from the contracts
 * alone about a short run of the library.
 */
module Scenario {
  import opened Entities
  import opened Repositories
  import opened Books
  import opened Circulation
  import opened Accounts

  /**
   * One copy on the shelf: issuing it empties the shelf and makes the book
   * unavailable, and a second issue is refused.
   */
  method IssueLastCopy(today: Day)
  {
    var db := new Database();
    var auth := new AuthenticationService(db, s => s, (users, u, p) => u in users, u => u);
    var catalog := new BookService(db);
    var loans := new IssueRecordService(db);

    var reader := auth.RegisterNormalUser(RegisterRequest("reader", "reader@example.org", "secret"));
    var book := catalog.AddBook(BookDto("Dune", "Herbert", "978-0441013593", 1, true));
    var first := loans.IssueTheBook(book.id, "reader", today);
    assert first.Ok? && !first.value.isReturned && first.value.returnDate == today + 14;
    assert db.books[book.id].quantity == 0 && !db.books[book.id].isAvailable;

    var second := loans.IssueTheBook(book.id, "reader", today);
    assert second == Err(BookNotAvailable);
  }

  /**
   * Returning the loan of the only copy restores the book as it was added
   * and closes the record.
   */
  method IssueThenReturn(today: Day)
  {
    var db := new Database();
    var auth := new AuthenticationService(db, s => s, (users, u, p) => u in users, u => u);
    var catalog := new BookService(db);
    var loans := new IssueRecordService(db);

    var reader := auth.RegisterNormalUser(RegisterRequest("reader", "reader@example.org", "secret"));
    var book := catalog.AddBook(BookDto("Dune", "Herbert", "978-0441013593", 1, true));
    var loan := loans.IssueTheBook(book.id, "reader", today);
    assert loan.Ok? && db.records[loan.value.id] == loan.value;
    assert db.books[book.id].quantity == 0;
    var back := loans.ReturnTheBook(loan.value.id, today + 3);
    assert back.Ok? && back.value.isReturned && back.value.returnDate == today + 3;
    assert db.books[book.id] == book;
    assert db.records[loan.value.id].isReturned;
  }

  /** A loan can be returned once: a second return is refused. */
  method ReturnTwice(today: Day)
  {
    var db := new Database();
    var auth := new AuthenticationService(db, s => s, (users, u, p) => u in users, u => u);
    var catalog := new BookService(db);
    var loans := new IssueRecordService(db);

    var reader := auth.RegisterNormalUser(RegisterRequest("reader", "reader@example.org", "secret"));
    var book := catalog.AddBook(BookDto("Dune", "Herbert", "978-0441013593", 1, true));
    var loan := loans.IssueTheBook(book.id, "reader", today);
    assert loan.Ok?;
    var back := loans.ReturnTheBook(loan.value.id, today + 3);
    assert back.Ok? && db.records[loan.value.id].isReturned;
    var again := loans.ReturnTheBook(loan.value.id, today + 4);
    assert again == Err(AlreadyReturned);
  }

  /**
   * A username can be registered once: a second registration, even as an
   * administrator, is refused and the first account is kept.
   */
  method RegisterTwice()
  {
    var db := new Database();
    var auth := new AuthenticationService(db, s => s, (users, u, p) => u in users, u => u);
    var reader := auth.RegisterNormalUser(RegisterRequest("reader", "reader@example.org", "secret"));
    assert reader.Ok? && reader.value.roles == {"ROLE_USER"};
    var again := auth.RegisterAdminUser(RegisterRequest("reader", "other@example.org", "other"));
    assert again == Err(AlreadyRegistered);
    assert db.users["reader"] == reader.value;
    var login := auth.Login(LoginRequest("reader", "secret"));
    assert login == Ok(LoginResponse("reader", "reader", {"ROLE_USER"}));
  }

  /**
   * Returns are not checked against any original stock: an update that
   * restocks a book while a copy is out, followed by the return, leaves two
   * copies on the shelf of a book that was added with one.
   */
  method RestockDuringLoan(today: Day)
  {
    var db := new Database();
    var auth := new AuthenticationService(db, s => s, (users, u, p) => u in users, u => u);
    var catalog := new BookService(db);
    var loans := new IssueRecordService(db);

    var reader := auth.RegisterNormalUser(RegisterRequest("reader", "reader@example.org", "secret"));
    var book := catalog.AddBook(BookDto("Dune", "Herbert", "978-0441013593", 1, true));
    var loan := loans.IssueTheBook(book.id, "reader", today);
    var restocked := catalog.UpdateBook(book.id, BookDto("Dune", "Herbert", "978-0441013593", 1, true));
    var back := loans.ReturnTheBook(loan.value.id, today + 1);
    assert back.Ok?;
    assert db.books[book.id].quantity == 2 && db.books[book.id].isAvailable;
  }

  /**
   * Identity ids are never reused: a book added after another was deleted
   * while on loan gets a new id, and the open loan stays with the old one.
   */
  method AddAfterDelete(today: Day)
  {
    var db := new Database();
    var auth := new AuthenticationService(db, s => s, (users, u, p) => u in users, u => u);
    var catalog := new BookService(db);
    var loans := new IssueRecordService(db);

    var reader := auth.RegisterNormalUser(RegisterRequest("reader", "reader@example.org", "secret"));
    var first := catalog.AddBook(BookDto("Dune", "Herbert", "978-0441013593", 1, true));
    var loan := loans.IssueTheBook(first.id, "reader", today);
    catalog.DeleteBookById(first.id);
    var added := catalog.AddBook(BookDto("Emma", "Austen", "978-0141439587", 2, true));
    assert added.id != first.id;
    assert loan.Ok? && db.records[loan.value.id].bookId == first.id;
  }
}
