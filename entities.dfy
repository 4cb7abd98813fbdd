/** Entities, request and response objects of the library backend. */
module Entities {

  /** Java's `Integer` range; a book's quantity is stored as one. */
  const Int32Min: int := -0x8000_0000
  const Int32Max: int := 0x7fff_ffff
  type Int32 = x: int | Int32Min <= x <= Int32Max

  /** Identity keys assigned by the database (`Long` auto-increment columns). */
  type BookId = int
  type RecordId = int

  /** A calendar day; `LocalDate` values are modelled as day numbers. */
  type Day = int

  datatype Book = Book(
    id: BookId,
    title: string,
    author: string,
    isbn: string,
    quantity: Int32,
    isAvailable: bool)

  /** The request body of the add and update operations: a book without its id. */
  datatype BookDto = BookDto(
    title: string,
    author: string,
    isbn: string,
    quantity: Int32,
    isAvailable: bool)

  /** A stored account; `password` holds the password encoder applied to the raw password. */
  datatype User = User(username: string, email: string, password: string, roles: set<string>)

  /**
   * One loan of one book to one user. `returnDate` is the due date while the
   * loan is open and the actual return day once `isReturned` is set.
   */
  datatype IssueRecord = IssueRecord(
    id: RecordId,
    bookId: BookId,
    username: string,
    issueDate: Day,
    returnDate: Day,
    isReturned: bool)

  datatype RegisterRequest = RegisterRequest(username: string, email: string, password: string)

  datatype LoginRequest = LoginRequest(username: string, password: string)

  datatype LoginResponse = LoginResponse(token: string, username: string, roles: set<string>)

  /**
   * The reasons an operation is rejected. The source throws a RuntimeException
   * for each, except two the model adds: QuantityOverflow, where the source's
   * return wraps the quantity around instead, and BookNotFound on a return
   * whose book has been deleted.
   */
  datatype Error =
    | BookNotFound
    | BookNotAvailable
    | UserNotFound
    | RecordNotFound
    | AlreadyReturned
    | QuantityOverflow
    | AlreadyRegistered
    | BadCredentials

  datatype Result<T> = Ok(value: T) | Err(error: Error)
}
