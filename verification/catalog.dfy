/**
 * The book endpoints: upload, list, partial update and delete. Writes are open
 * to any author: update and delete do not check that the caller wrote the book.
 * Text wider than its column is cut when only spaces are cut; a row the
 * database refuses at commit (other excess text, a null in a NOT NULL column,
 * a duplicate ISBN) surfaces as an unhandled error.
 */
module Catalog {
  import opened Outcomes
  import opened Models
  import opened Seqs
  import opened Schemas
  import opened Auth

  /** Some book in `books` carries ISBN `isbn`. */
  ghost predicate IsbnInUse(books: map<Id, Book>, isbn: string) {
    exists k :: k in books && books[k].isbn == Some(isbn)
  }

  /** No row of a table without ISBN `isbn` carries it. */
  lemma NotInUse(books: map<Id, Book>, isbn: string, k: Id)
    requires !IsbnInUse(books, isbn) && k in books
    ensures books[k].isbn != Some(isbn)
  {
  }

  /** The books other than `except` that carry ISBN `isbn`. */
  function HoldersOf(s: Store, isbn: string, except: Id): (rs: seq<Book>)
    requires Keyed(s)
    ensures rs == [] <==> !IsbnInUse(s.books - {except}, isbn)
  {
    var rs := Filter(AllBooks(s), (b: Book) => b.id != except && b.isbn == Some(isbn));
    assert IsbnInUse(s.books - {except}, isbn) ==> rs != [] by {
      if IsbnInUse(s.books - {except}, isbn) {
        var k :| k in s.books - {except} && s.books[k].isbn == Some(isbn);
        assert s.books[k] in rs;
      }
    }
    assert rs != [] ==> IsbnInUse(s.books - {except}, isbn) by {
      if rs != [] {
        assert InTable(s.books, rs[0]);
        var k :| k in s.books && s.books[k] == rs[0];
        assert k in s.books - {except};
      }
    }
    rs
  }

  /** The database accepts book row `b` stored under its id next to the other books. */
  ghost predicate Storable(s: Store, b: Book) {
    BookFits(b) && (b.isbn.Some? ==> !IsbnInUse(s.books - {b.id}, b.isbn.value))
  }

  /** Whether the commit of book row `b` succeeds, decided on the stored rows. */
  function CanStore(s: Store, b: Book): (ok: bool)
    requires Keyed(s)
    ensures ok <==> Storable(s, b)
  {
    BookFits(b) && (b.isbn.None? || HoldersOf(s, b.isbn.value, b.id) == [])
  }

  /**
   * Book row `b` as its columns hold it: title and ISBN coerced to their
   * widths. None when the database refuses either value.
   */
  function FitBook(b: Book): (r: Option<Book>)
    ensures r.Some? <==>
      Coerce(b.title, TitleWidth).Some? && (b.isbn.Some? ==> Coerce(b.isbn.value, IsbnWidth).Some?)
    ensures r.Some? ==> BookFits(r.value)
    ensures r.Some? ==> Some(r.value.title) == Coerce(b.title, TitleWidth)
    ensures r.Some? ==> r.value.isbn.Some? == b.isbn.Some?
    ensures r.Some? && b.isbn.Some? ==> Some(r.value.isbn.value) == Coerce(b.isbn.value, IsbnWidth)
    ensures r.Some? ==> r.value == b.(title := r.value.title, isbn := r.value.isbn)
    ensures BookFits(b) ==> r == Some(b)
  {
    var title := Coerce(b.title, TitleWidth);
    var isbn := if b.isbn.Some? then Coerce(b.isbn.value, IsbnWidth) else Some("");
    if title.None? || isbn.None? then None
    else Some(b.(title := title.value, isbn := if b.isbn.Some? then Some(isbn.value) else None))
  }

  /** Storing a storable row for an existing author under an id the serial handed out keeps integrity. */
  lemma StoreBookValid(s: Store, b: Book, nextBookId: Id)
    requires Valid(s) && Storable(s, b) && b.authorId in s.users
    requires 0 < b.id < nextBookId && s.nextBookId <= nextBookId
    ensures Valid(s.(books := s.books[b.id := b], nextBookId := nextBookId))
  {
    var t := s.(books := s.books[b.id := b], nextBookId := nextBookId);
    assert IsbnsUnique(t.books) by {
      forall x, y | x in t.books && y in t.books && t.books[x].isbn.Some? && t.books[x].isbn == t.books[y].isbn
        ensures x == y
      {
        if x != y && (x == b.id || y == b.id) {
          NotInUse(s.books - {b.id}, b.isbn.value, if x == b.id then y else x);
          assert false;
        }
      }
    }
  }

  /**
   * POST /books/: an author uploads a book, which records them as its author.
   * Fields left unset take the column defaults. A refused commit has drawn the
   * book id all the same.
   */
  function UploadBook(s: Store, caller: User, body: BookUpload, now: Time): (r: Handled<Book>)
    requires Valid(s) && Authenticated(s, caller)
    ensures caller.role != Author ==> r == Handled(s, Failure(Forbidden))
    ensures caller.role == Author ==> (r.response.Success? <==>
      && Coerce(body.title, TitleWidth).Some?
      && (body.isbn.Some? ==>
            Coerce(body.isbn.value, IsbnWidth).Some? && !IsbnInUse(s.books, Coerce(body.isbn.value, IsbnWidth).value)))
    ensures caller.role == Author && r.response.Failure? ==>
      r.response.error == InternalError && r.store == s.(nextBookId := s.nextBookId + 1)
    ensures r.response.Success? ==>
      Some(r.response.value) == FitBook(NewBook(s.nextBookId, body.isbn, body.title, body.description,
                                                body.publishedDate, body.status, caller.id, now))
    ensures r.response.Success? ==> r.response.value.id !in s.books
    ensures r.response.Success? ==>
      r.store == s.(books := s.books[r.response.value.id := r.response.value], nextBookId := s.nextBookId + 1)
    ensures Valid(r.store)
  {
    match RoleRequired({Author}, caller)
    case Failure(e) => Handled(s, Failure(e))
    case Success(_) =>
      var drawn := s.(nextBookId := s.nextBookId + 1);
      var b0 := NewBook(s.nextBookId, body.isbn, body.title, body.description,
                        body.publishedDate, body.status, caller.id, now);
      assert s.books - {b0.id} == s.books;
      match FitBook(b0)
      case None => Handled(drawn, Failure(InternalError))
      case Some(b) =>
        if !CanStore(s, b) then Handled(drawn, Failure(InternalError))
        else
          StoreBookValid(s, b, s.nextBookId + 1);
          Handled(s.(books := s.books[b.id := b], nextBookId := s.nextBookId + 1), Success(b))
  }

  /**
   * An ISBN sent with a trailing space is stored without it, so it collides
   * with the stored book that carries the bare ISBN.
   */
  lemma PaddedIsbnTaken(s: Store, caller: User, body: BookUpload, isbn: string, now: Time)
    requires Valid(s) && Authenticated(s, caller) && caller.role == Author
    requires |isbn| == IsbnWidth && IsbnInUse(s.books, isbn) && body.isbn == Some(isbn + " ")
    ensures UploadBook(s, caller, body, now) == Handled(s.(nextBookId := s.nextBookId + 1), Failure(InternalError))
  {
    assert (isbn + " ")[IsbnWidth] == ' ';
    assert (isbn + " ")[..IsbnWidth] == isbn;
  }

  /** GET /books/: every book, for any signed-in user. */
  function GetAllBooks(s: Store, caller: User): (r: seq<Book>)
    requires Valid(s) && Authenticated(s, caller)
    ensures forall b :: multiset(r)[b] == if InTable(s.books, b) then 1 else 0
  {
    AllBooks(s)
  }

  /** The value of a nullable column after a patch of it. */
  function Overwrite<T>(p: Patch<T>, current: Option<T>): Option<T> {
    match p
    case Unset => current
    case Null => None
    case SetTo(v) => Some(v)
  }

  /**
   * Book `b` after update `upd`: every field sent replaces the stored one, null
   * included; None when a null lands in a NOT NULL column.
   */
  function ApplyUpdate(b: Book, upd: BookUpdate): (r: Option<Book>)
    ensures r.None? <==> upd.title.Null? || upd.publishedDate.Null? || upd.status.Null?
    ensures r.Some? ==> r.value.isbn == Overwrite(upd.isbn, b.isbn)
    ensures r.Some? ==> Some(r.value.title) == Overwrite(upd.title, Some(b.title))
    ensures r.Some? ==> r.value.description == Overwrite(upd.description, b.description)
    ensures r.Some? ==> Some(r.value.publishedDate) == Overwrite(upd.publishedDate, Some(b.publishedDate))
    ensures r.Some? ==> Some(r.value.status) == Overwrite(upd.status, Some(b.status))
    ensures r.Some? ==> r.value.id == b.id && r.value.createdAt == b.createdAt && r.value.authorId == b.authorId
    ensures upd == NoChange ==> r == Some(b)
  {
    var title := Overwrite(upd.title, Some(b.title));
    var publishedDate := Overwrite(upd.publishedDate, Some(b.publishedDate));
    var status := Overwrite(upd.status, Some(b.status));
    if title.None? || publishedDate.None? || status.None? then None
    else
      Some(b.(isbn := Overwrite(upd.isbn, b.isbn), title := title.value,
              description := Overwrite(upd.description, b.description),
              publishedDate := publishedDate.value, status := status.value))
  }

  /**
   * The update of book `id` reaches the database and commits: the caller
   * passes the guard, the id is a stored book, and the patched row coerced to
   * its columns can be stored.
   */
  ghost predicate Commits(s: Store, caller: User, id: Id, upd: BookUpdate) {
    && caller.role == Author && Int4(id) && id in s.books
    && ApplyUpdate(s.books[id], upd).Some?
    && FitBook(ApplyUpdate(s.books[id], upd).value).Some?
    && Storable(s, FitBook(ApplyUpdate(s.books[id], upd).value).value)
  }

  /**
   * PATCH /books/{id}: any author overwrites the fields sent, the text ones
   * coerced to their columns. The status may be set to anything, whatever the
   * book's loans say. An id outside the integer range fails the query: 500.
   * The answer reads the author's name through the book's author relation,
   * which the query does not load; the session holds the caller's own row
   * only, so for a book another author wrote the load needs a query the async
   * session cannot run there, and the request fails with 500 after the
   * update has been committed.
   */
  function UpdateBook(s: Store, caller: User, id: Id, upd: BookUpdate): (r: Handled<Book>)
    requires Valid(s) && Authenticated(s, caller)
    ensures caller.role != Author ==> r == Handled(s, Failure(Forbidden))
    ensures caller.role == Author && !Int4(id) ==> r == Handled(s, Failure(InternalError))
    ensures caller.role == Author && Int4(id) && id !in s.books ==> r == Handled(s, Failure(NotFound))
    ensures Commits(s, caller, id, upd) ==>
      r.store == s.(books := s.books[id := FitBook(ApplyUpdate(s.books[id], upd).value).value])
    ensures !Commits(s, caller, id, upd) ==> r.store == s
    ensures r.response.Success? <==> Commits(s, caller, id, upd) && s.books[id].authorId == caller.id
    ensures caller.role == Author && Int4(id) && id in s.books && r.response.Failure? ==>
      r.response.error == InternalError
    ensures r.response.Success? ==> r.response.value == r.store.books[id]
    ensures Valid(r.store)
  {
    match RoleRequired({Author}, caller)
    case Failure(e) => Handled(s, Failure(e))
    case Success(_) =>
      if !Int4(id) then Handled(s, Failure(InternalError))
      else if id !in s.books then Handled(s, Failure(NotFound))
      else
        match ApplyUpdate(s.books[id], upd)
        case None => Handled(s, Failure(InternalError))
        case Some(p) =>
          match FitBook(p)
          case None => Handled(s, Failure(InternalError))
          case Some(b) =>
            if !CanStore(s, b) then Handled(s, Failure(InternalError))
            else
              StoreBookValid(s, b, s.nextBookId);
              assert s.(books := s.books[b.id := b], nextBookId := s.nextBookId) == s.(books := s.books[id := b]);
              var t := s.(books := s.books[id := b]);
              if b.authorId == caller.id then Handled(t, Success(b)) else Handled(t, Failure(InternalError))
  }

  /** A stored book can be stored again as it is. */
  lemma StoredIsStorable(s: Store, id: Id)
    requires Valid(s) && id in s.books
    ensures Storable(s, s.books[id])
  {
    var b := s.books[id];
    if b.isbn.Some? && IsbnInUse(s.books - {id}, b.isbn.value) {
      assert false;
    }
  }

  /**
   * An update that sends no field changes nothing; it answers with the stored
   * book when the caller wrote it, and with 500 otherwise.
   */
  lemma UpdateNothing(s: Store, caller: User, id: Id)
    requires Valid(s) && Authenticated(s, caller) && caller.role == Author && id in s.books && Int4(id)
    ensures UpdateBook(s, caller, id, NoChange) ==
      Handled(s, if s.books[id].authorId == caller.id then Success(s.books[id]) else Failure(InternalError))
  {
    StoredIsStorable(s, id);
    assert s.books[id := s.books[id]] == s.books;
  }

  /** Sending the same update again after it committed leaves the store as it is and answers alike. */
  lemma UpdateIdempotent(s: Store, caller: User, id: Id, upd: BookUpdate)
    requires Valid(s) && Authenticated(s, caller)
    requires Commits(s, caller, id, upd)
    ensures var r := UpdateBook(s, caller, id, upd);
      Authenticated(r.store, caller) && UpdateBook(r.store, caller, id, upd) == r
  {
    var r := UpdateBook(s, caller, id, upd);
    var t := r.store;
    var p := ApplyUpdate(s.books[id], upd).value;
    var b := FitBook(p).value;
    assert t.books[id] == b;
    var q := ApplyUpdate(b, upd).value;
    assert FitBook(q) == Some(b) by {
      assert BookFits(s.books[id]);
      if upd.title.SetTo? {
        CoerceAgain(upd.title.value, TitleWidth);
      }
      if upd.isbn.SetTo? {
        CoerceAgain(upd.isbn.value, IsbnWidth);
      }
      assert q.title == b.title || q.title == p.title;
    }
    StoredIsStorable(t, id);
    assert t.books[id := b] == t.books;
  }

  /**
   * DELETE /books/{id}: any author deletes any book; its borrow records go
   * with it. An id outside the integer range fails the query: 500.
   */
  function DeleteBook(s: Store, caller: User, id: Id): (r: Response<Store>)
    requires Valid(s) && Authenticated(s, caller)
    ensures caller.role != Author ==> r == Failure(Forbidden)
    ensures caller.role == Author && !Int4(id) ==> r == Failure(InternalError)
    ensures caller.role == Author && Int4(id) ==> (r.Success? <==> id in s.books)
    ensures caller.role == Author && Int4(id) && r.Failure? ==> r.error == NotFound
    ensures r.Success? ==> r.value.books.Keys == s.books.Keys - {id}
    ensures r.Success? ==> forall k :: k in r.value.books ==> r.value.books[k] == s.books[k]
    ensures r.Success? ==> forall k :: k in r.value.borrows <==> k in s.borrows && s.borrows[k].bookId != id
    ensures r.Success? ==> forall k :: k in r.value.borrows ==> r.value.borrows[k] == s.borrows[k]
    ensures r.Success? ==> r.value.users == s.users && r.value.notifications == s.notifications
    ensures r.Success? ==> Valid(r.value)
    ensures r.Success? && OneActivePerBook(s.borrows) ==> OneActivePerBook(r.value.borrows)
  {
    match RoleRequired({Author}, caller)
    case Failure(e) => Failure(e)
    case Success(_) =>
      if !Int4(id) then Failure(InternalError)
      else if id !in s.books then Failure(NotFound)
      else Success(DeleteBookCascade(s, id))
  }

  /**
   * Deleting a book just uploaded restores every table; only the id serial has
   * moved on. The serial's next value must fit the id column.
   */
  lemma UploadThenDelete(s: Store, caller: User, body: BookUpload, now: Time)
    requires Valid(s) && Authenticated(s, caller) && Int4(s.nextBookId)
    requires UploadBook(s, caller, body, now).response.Success?
    ensures var r := UploadBook(s, caller, body, now);
      && Authenticated(r.store, caller)
      && DeleteBook(r.store, caller, r.response.value.id) == Success(s.(nextBookId := s.nextBookId + 1))
  {
    var r := UploadBook(s, caller, body, now);
    var (t, b) := (r.store, r.response.value);
    var u := DeleteBook(t, caller, b.id).value;
    assert u.books == s.books;
    assert u.borrows == s.borrows by {
      forall k | k in s.borrows
        ensures s.borrows[k].bookId != b.id
      {
      }
    }
  }
}
