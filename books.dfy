/** The book catalog: list, look up, add, update and delete books. */
module Books {
  import opened Entities
  import opened Repositories

  /** A book built from a request body, under the given id. */
  function FromDto(id: BookId, dto: BookDto): Book
  {
    Book(id, dto.title, dto.author, dto.isbn, dto.quantity, dto.isAvailable)
  }

  /** `m` is the least id in `ids`. */
  predicate IsLeast(m: BookId, ids: set<BookId>)
  {
    m in ids && forall k :: k in ids ==> m <= k
  }

  /** Every finite non-empty set of ids has a least element. */
  lemma {:induction false} LeastExists(ids: set<BookId>)
    requires ids != {}
    ensures exists m :: IsLeast(m, ids)
  {
    if forall k :: k !in ids {
      assert false;
    }
    var x :| x in ids;
    var others := ids - {x};
    if others == {} {
      assert ids == {x};
      assert IsLeast(x, ids);
    } else {
      LeastExists(others);
      var m :| IsLeast(m, others);
      var least := if x < m then x else m;
      forall k | k in ids
        ensures least <= k
      {
        if k != x {
          assert k in others;
        }
      }
      assert IsLeast(least, ids);
    }
  }

  /** The least id in a non-empty set of ids. */
  function Least(ids: set<BookId>): (m: BookId)
    requires ids != {}
    ensures m in ids && forall k :: k in ids ==> m <= k
  {
    LeastExists(ids);
    var m :| IsLeast(m, ids);
    m
  }

  /** The ids of a set, each exactly once, in ascending order (see AscendingIdsSorted). */
  function AscendingIds(ids: set<BookId>): (r: seq<BookId>)
    ensures |r| == |ids|
    ensures forall id :: id in r <==> id in ids
    decreases |ids|
  {
    if ids == {} then []
    else
      var m := Least(ids);
      var rest := ids - {m};
      assert |rest| < |ids|;
      [m] + AscendingIds(rest)
  }

  /** AscendingIds lists the ids in strictly ascending order. */
  lemma {:induction false} AscendingIdsSorted(ids: set<BookId>)
    ensures forall i, j :: 0 <= i < j < |AscendingIds(ids)| ==> AscendingIds(ids)[i] < AscendingIds(ids)[j]
    decreases |ids|
  {
    if ids != {} {
      var m := Least(ids);
      var rest := ids - {m};
      assert |rest| < |ids|;
      AscendingIdsSorted(rest);
      var tail := AscendingIds(rest);
      var r := AscendingIds(ids);
      assert r == [m] + tail;
      forall i, j | 0 <= i < j < |r|
        ensures r[i] < r[j]
      {
        if i > 0 {
          assert r[i] == tail[i - 1];
        } else {
          assert tail[j - 1] in rest;
        }
      }
    }
  }

  /** The stored books as a list, in ascending id order. */
  function ListBooks(books: map<BookId, Book>): seq<Book>
  {
    var ids := AscendingIds(books.Keys);
    assert forall i :: 0 <= i < |ids| ==> ids[i] in ids;
    seq(|ids|, i requires 0 <= i < |ids| => books[ids[i]])
  }

  /**
   * The catalog listing holds each stored book exactly once, every entry
   * being the book stored under its id, in strictly ascending id order.
   */
  lemma ListBooksExact(books: map<BookId, Book>)
    requires BooksKeyed(books)
    ensures |ListBooks(books)| == |books|
    ensures forall i :: 0 <= i < |ListBooks(books)| ==>
              ListBooks(books)[i].id in books && books[ListBooks(books)[i].id] == ListBooks(books)[i]
    ensures forall id :: id in books ==> books[id] in ListBooks(books)
    ensures forall i, j :: 0 <= i < j < |ListBooks(books)| ==> ListBooks(books)[i].id < ListBooks(books)[j].id
  {
    var ids := AscendingIds(books.Keys);
    AscendingIdsSorted(books.Keys);
    var r := ListBooks(books);
    assert forall i :: 0 <= i < |r| ==> r[i] == books[ids[i]] && r[i].id == ids[i];
    forall id | id in books
      ensures books[id] in r
    {
      var i :| 0 <= i < |ids| && ids[i] == id;
      assert r[i] == books[id];
    }
  }

  class BookService {
    const db: Database

    constructor (db: Database)
      ensures this.db == db
    {
      this.db := db;
    }

    /** Every stored book, each exactly once, ordered by id. */
    function GetAllBooks(): (r: seq<Book>)
      reads db
      requires db.Valid()
      ensures |r| == |db.books|
      ensures forall b :: b in r <==> b in db.books.Values
      ensures forall i :: 0 <= i < |r| ==> r[i].id in db.books && db.books[r[i].id] == r[i]
      ensures forall i, j :: 0 <= i < j < |r| ==> r[i].id < r[j].id
    {
      ListBooksExact(db.books);
      ListBooks(db.books)
    }

    /** The stored book with that id, or BookNotFound. */
    function GetBookById(id: BookId): (r: Result<Book>)
      reads db
      ensures r.Ok? <==> id in db.books
      ensures r.Ok? ==> r.value == db.books[id]
      ensures r.Err? ==> r.error == BookNotFound
    {
      if id in db.books then Ok(db.books[id]) else Err(BookNotFound)
    }

    /**
     * Stores a new book with the request's fields under a fresh id. The
     * request's quantity and availability flag are copied as they are, so
     * the new book need not be available exactly when it is in stock.
     */
    method AddBook(dto: BookDto) returns (saved: Book)
      requires db.Valid()
      modifies db
      ensures db.Valid()
      ensures saved.id == old(db.nextBookId) && db.nextBookId == old(db.nextBookId) + 1
      ensures saved.id !in old(db.books)
      ensures forall id :: id in db.records ==> db.records[id].bookId != saved.id
      ensures saved == FromDto(saved.id, dto)
      ensures db.books == old(db.books)[saved.id := saved]
      ensures GetBookById(saved.id) == Ok(saved)
      ensures db.records == old(db.records) && db.users == old(db.users)
      ensures db.nextRecordId == old(db.nextRecordId)
    {
      var id := db.nextBookId;
      var book := FromDto(id, dto);
      db.books := db.books[id := book];
      db.nextBookId := id + 1;
      saved := book;
    }

    /**
     * Replaces the five mutable fields of the book with that id by the
     * request's, keeping its id; BookNotFound and no change when absent.
     */
    method UpdateBook(id: BookId, dto: BookDto) returns (r: Result<Book>)
      requires db.Valid()
      modifies db
      ensures db.Valid()
      ensures r.Ok? <==> id in old(db.books)
      ensures r.Err? ==> r.error == BookNotFound && unchanged(db)
      ensures r.Ok? ==> r.value == FromDto(id, dto) && db.books == old(db.books)[id := r.value]
      ensures r.Ok? ==> GetBookById(id) == r
      ensures db.records == old(db.records) && db.users == old(db.users)
      ensures db.nextBookId == old(db.nextBookId) && db.nextRecordId == old(db.nextRecordId)
    {
      if id !in db.books {
        return Err(BookNotFound);
      }
      var existing := db.books[id];
      existing := existing.(title := dto.title, author := dto.author, isbn := dto.isbn);
      existing := existing.(isAvailable := dto.isAvailable, quantity := dto.quantity);
      db.books := db.books[id := existing];
      r := Ok(existing);
    }

    /** Removes the book with that id, if any; every other book stays. */
    method DeleteBookById(id: BookId)
      requires db.Valid()
      modifies db
      ensures db.Valid()
      ensures db.books == old(db.books) - {id}
      ensures GetBookById(id) == Err(BookNotFound)
      ensures db.records == old(db.records) && db.users == old(db.users)
      ensures db.nextBookId == old(db.nextBookId) && db.nextRecordId == old(db.nextRecordId)
    {
      db.books := db.books - {id};
    }
  }
}
