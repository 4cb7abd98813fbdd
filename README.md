# Library management backend: catalog, accounts and the borrowing workflow

This project models the service layer of a small library backend written in
Java with Spring. It covers three services and the tables they share:

- **Book catalog** (`BookService`): list, look up, add, update and delete books.
- **Accounts** (`AuthenticationService`): register normal and admin users, and log in.
- **Borrowing workflow** (`IssueRecordService`): issue a copy of a book to the
  calling user and take it back.
  - Issuing opens an issue record due 14 days later and takes one copy off the shelf.
  - Returning closes the record and puts the copy back.

The books, issue-record and user tables live in one `Database` object
(`Repositories`). Books and records are keyed by their database id. Users are
keyed by username, so usernames stay unique. Each service is a class holding
a reference to that database, as the Spring services share their
repositories. Lookups are functions that read the database. Operations that
write are methods whose contracts give the whole new state of the tables.

Modules, one per part of the source:

- `Entities`: `Book`, `BookDto`, `User`, `IssueRecord`, the request and
  response objects, the `Error` reasons and `Result`.
- `Repositories`: the `Database` class and its invariant `Valid`.
- `Books`: the `BookService` class and the ordered listing of the catalog.
- `Circulation`: the `IssueRecordService` class and the book and record
  transitions it applies. It also holds the stock-conservation lemmas and the
  32-bit return finding.
- `Accounts`: the `AuthenticationService` class and the two fixed role sets.
- `Scenario`: six client methods, which conclude from the contracts alone:
  - `IssueLastCopy`: issuing the only copy empties the shelf, and a second
    issue is refused.
  - `IssueThenReturn`: returning that loan restores the book as added and
    closes the record.
  - `ReturnTwice`: a second return of the same loan is refused.
  - `RegisterTwice`: a username is registered once, and logging in returns its
    roles.
  - `RestockDuringLoan`: returns are not checked against any original stock.
  - `AddAfterDelete`: a book added after a deletion gets a new id, so it
    inherits no loan of the deleted book.

The workflow has one intended invariant per book: `isAvailable == (quantity > 0)`
and `quantity >= 0` (`Circulation.Consistent`).
- `AfterIssue` proves that issuing always leaves the book consistent.
- `AfterReturn` proves that returning keeps it consistent whenever the quantity
  was not negative.
- The catalog operations copy `quantity` and `isAvailable` from the request
  independently. So the model does not assume the invariant after them, and
  `Database.Valid` does not include it.

Beyond what a single call promises, the model proves a conservation law. A
book's stock is its shelf quantity plus its open loans (records not yet
returned). Neither issuing nor returning changes any book's stock. Returns
are never checked against an original stock, yet issue and return alone
cannot inflate it. The only way is `updateBook`: it can reset the quantity
while copies are out on loan, and the return then adds them back
(`Scenario.RestockDuringLoan`).

## Model

| member | source | states |
|---|---|---|
| `Books.BookService.GetAllBooks` | Library_Management/src/main/java/com/RahulNaikB/Library_Management/Service/BookService.java:17-19 | the list holds exactly the stored books: as many entries as stored books, each the book stored under its own id, with ids strictly ascending, so no book appears twice |
| `Books.ListBooksExact` | Library_Management/src/main/java/com/RahulNaikB/Library_Management/Service/BookService.java:17-19 | the catalog as a list holds each stored book exactly once, every entry is the book stored under its own id, and ids strictly ascend |
| `Books.AscendingIds` | Library_Management/src/main/java/com/RahulNaikB/Library_Management/Service/BookService.java:17-19 | the ids of the table in listing order: as many as the table has, and exactly the table's ids |
| `Books.AscendingIdsSorted` | Library_Management/src/main/java/com/RahulNaikB/Library_Management/Service/BookService.java:17-19 | the listing order is strictly ascending by id |
| `Books.BookService.GetBookById` | Library_Management/src/main/java/com/RahulNaikB/Library_Management/Service/BookService.java:21-24 | succeeds exactly when the id is stored, returning that stored book; otherwise fails with BookNotFound |
| `Books.BookService.AddBook` | Library_Management/src/main/java/com/RahulNaikB/Library_Management/Service/BookService.java:26-34 | stores one new book under the next identity id, which no stored book or issue record has ever named (identity ids are never reused), with the request's title, author, isbn, availability and quantity copied as given. A later lookup returns it. No other book, record or user changes |
| `Books.BookService.UpdateBook` | Library_Management/src/main/java/com/RahulNaikB/Library_Management/Service/BookService.java:36-46 | an absent id fails with BookNotFound and changes nothing. Otherwise the five mutable fields take the request's values, the id is kept and every other book stays |
| `Books.BookService.DeleteBookById` | Library_Management/src/main/java/com/RahulNaikB/Library_Management/Service/BookService.java:48-50 | the id is no longer stored and every other book stays; records and users are untouched |
| `Circulation.AfterIssue` | Library_Management/src/main/java/com/RahulNaikB/Library_Management/Service/IssueRecordService.java:53-56 | lending a copy of an issuable book lowers its quantity by exactly one to a value >= 0. The book is then available exactly when copies remain. No other field changes |
| `Circulation.AfterReturn` | Library_Management/src/main/java/com/RahulNaikB/Library_Management/Service/IssueRecordService.java:74-76 | a returned copy raises the quantity by one and makes the book available, with no check against an original stock; it is defined below the 32-bit maximum. A book with a non-negative quantity is consistent afterwards |
| `Circulation.Closed` | Library_Management/src/main/java/com/RahulNaikB/Library_Management/Service/IssueRecordService.java:80-81 | a closed record is returned, carries the return day as its return date, and is otherwise the open record |
| `Circulation.IssueConservesStock` | Library_Management/src/main/java/com/RahulNaikB/Library_Management/Service/IssueRecordService.java:44-60 | issuing moves one copy from the shelf to a new open record, so shelf quantity plus open loans is unchanged for every book |
| `Circulation.ReturnConservesStock` | Library_Management/src/main/java/com/RahulNaikB/Library_Management/Service/IssueRecordService.java:74-83 | returning moves one copy from an open record back to the shelf, so shelf quantity plus open loans is unchanged for every book |
| `Circulation.IssueRecordService.IssueTheBook` | Library_Management/src/main/java/com/RahulNaikB/Library_Management/Service/IssueRecordService.java:27-61 | fails with nothing changed, in this order: unknown book (BookNotFound), quantity <= 0 or not available (BookNotAvailable), caller not a registered user (UserNotFound). Otherwise it adds exactly one open record for that book and caller, issued today and due today + 14, and applies AfterIssue to that book. Other books and records, the users and every book's stock are unchanged, and returned records are kept as they were |
| `Circulation.IssueRecordService.ReturnTheBook` | Library_Management/src/main/java/com/RahulNaikB/Library_Management/Service/IssueRecordService.java:63-84 | fails with nothing changed for an unknown record (RecordNotFound), a returned one (AlreadyReturned), a deleted book (BookNotFound) and a quantity already at the 32-bit maximum (QuantityOverflow). Otherwise it applies AfterReturn to the record's book and closes the record on today. Nothing else changes, every book's stock is unchanged, and returned records are never modified |
| `Circulation.WrapInt32` | Library_Management/src/main/java/com/RahulNaikB/Library_Management/Service/IssueRecordService.java:75 | Java int addition: the result is congruent to the exact sum modulo 2^32 and equals it when the sum fits in 32 bits |
| `Circulation.AfterReturnAsWritten` | Library_Management/src/main/java/com/RahulNaikB/Library_Management/Service/IssueRecordService.java:74-76 | the return step as written, with a wrapping increment. The book is always marked available, and the result agrees with AfterReturn below the largest quantity |
| `Circulation.ReturnAtLargestQuantityBreaksConsistency` | Library_Management/src/main/java/com/RahulNaikB/Library_Management/Service/IssueRecordService.java:74-76 | a consistent book at quantity 2147483647 becomes available with quantity -2147483648 under the return step as written |
| `Accounts.AuthenticationService.Register` | Library_Management/src/main/java/com/RahulNaikB/Library_Management/Service/AuthenticationService.java:41-47 | a taken username fails with AlreadyRegistered and changes nothing. Otherwise exactly one user is added under that username, with its email, the password encoder applied to the raw password and the given roles |
| `Accounts.AuthenticationService.RegisterNormalUser` | Library_Management/src/main/java/com/RahulNaikB/Library_Management/Service/AuthenticationService.java:33-48 | a taken username fails with AlreadyRegistered and leaves the table unchanged. Otherwise one user is added with the request's username and email, the encoded password and the role set exactly {ROLE_USER}. Other users are unchanged and usernames stay unique |
| `Accounts.AuthenticationService.RegisterAdminUser` | Library_Management/src/main/java/com/RahulNaikB/Library_Management/Service/AuthenticationService.java:50-66 | as RegisterNormalUser, but the role set is exactly {ROLE_ADMIN, ROLE_USER} |
| `Accounts.AuthenticationService.Login` | Library_Management/src/main/java/com/RahulNaikB/Library_Management/Service/AuthenticationService.java:68-90 | refused credentials fail with BadCredentials, and an unknown username fails with UserNotFound. On success the response carries the token minted for the username, and the stored user's username and roles. The table is only read |

## Left out

- Persistence, transactions and concurrency: each operation is one atomic step on the in-memory tables. The lost-update hazard of two concurrent issues is not modelled.
- The caller's identity (the security context) and the current date are parameters: `username` and `today`, a day number. `plusDays(14)` is `+ 14` on day numbers, and calendar arithmetic is not modelled.
- The password encoder, the authentication manager's decision and the token service are function-valued fields of `AuthenticationService`. The model does not capture how the manager checks a password, so a wrong password failing is only as true as that function makes it.
- Token contents, signing, expiry and validation (`JwtService`), the request filter, the controllers and their role checks are not part of this model.
- Null fields: the model takes every request field as present. The source would fail with a NullPointerException on a null quantity, availability flag or returned flag when a book is issued or returned.
- Database ids are unbounded integers rather than 64-bit `Long` values.
- `Books.ListBooksExact`: the repository's `findAll` promises no order. The model lists books by ascending id.
- `Books.BookService.DeleteBookById`: an absent id is a no-op, as Spring Data's `deleteById` is in current versions. The model also lets a book be deleted while issue records still refer to it. The foreign-key behaviour of the database is not part of this model.
- `Circulation.IssueRecordService.ReturnTheBook`: for a record whose book has been deleted, the model fails with BookNotFound and changes nothing. The issue-record entity and its mapping to the book are not part of this model.
- `Circulation.IssueRecordService.ReturnTheBook`: at quantity 2147483647 the model refuses the return with QuantityOverflow and changes nothing, where the source wraps the quantity to -2147483648, marks the book available and closes the record. The as-written step is `Circulation.AfterReturnAsWritten` (see ## Findings).
- `Circulation.IssueRecordService.ReturnTheBook`: the source overwrites the due date with the return day. The model keeps that single `returnDate` field and does not keep the due date separately.

## Findings

| source | as written | input that shows it | evidently intended | confidence | as-written member | corrected member |
|---|---|---|---|---|---|---|
| Library_Management/src/main/java/com/RahulNaikB/Library_Management/Service/IssueRecordService.java:75-76 | `book.setQuantity(book.getQuantity() + 1)` on a 32-bit Integer, then `setIsAvailable(true)` | returning a loan of a book whose quantity is 2147483647 (reached when an admin sets the quantity to 2147483647 through `updateBook` while a copy is out on loan) | the quantity grows by one and the book stays available exactly when in stock; an increment past the 32-bit range is refused (as `Math.addExact` would) | not executed; the arithmetic is certain, reaching it needs an admin update during an open loan | `Circulation.ReturnAtLargestQuantityBreaksConsistency` | `Circulation.AfterReturn` |
