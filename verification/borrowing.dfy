/**
 * The lending endpoints: borrowing a book, returning it, and the two listings
 * of borrow records. Each takes the caller that authentication produced
 * (`Auth.GetCurrentUser`), so the 401 outcomes happen before any of these run;
 * the role check then happens before any lookup.
 */
module Borrowing {
  import opened Outcomes
  import opened Models
  import opened Seqs
  import opened Auth

  /** A loan runs fourteen days from the moment of borrowing. */
  const LoanPeriod: int := 14 * SecondsPerDay

  /** Book `bookId` is out on some unreturned borrow record. */
  ghost predicate OnLoan(borrows: map<Id, BorrowRecord>, bookId: Id) {
    exists k :: k in borrows && borrows[k].bookId == bookId && IsActive(borrows[k])
  }

  /** The unreturned borrow records of one book. */
  function ActiveLoans(s: Store, bookId: Id): (rs: seq<BorrowRecord>)
    requires Keyed(s)
    ensures forall x :: x in rs <==> InTable(s.borrows, x) && x.bookId == bookId && IsActive(x)
    ensures rs == [] <==> !OnLoan(s.borrows, bookId)
  {
    var rs := Filter(AllBorrows(s), (x: BorrowRecord) => x.bookId == bookId && IsActive(x));
    assert OnLoan(s.borrows, bookId) ==> rs != [] by {
      if OnLoan(s.borrows, bookId) {
        var k :| k in s.borrows && s.borrows[k].bookId == bookId && IsActive(s.borrows[k]);
        assert s.borrows[k] in rs;
      }
    }
    rs
  }

  /** `t` is `s` after lending book `bookId` to user `userId` at `now` as the new record `rec`. */
  ghost predicate Lent(s: Store, t: Store, rec: BorrowRecord, userId: Id, bookId: Id, now: Time) {
    && bookId in s.books
    && rec.id == s.nextBorrowId && rec.id !in s.borrows
    && rec.userId == userId && rec.bookId == bookId
    && rec.borrowedAt == now && rec.dueAt == now + LoanPeriod
    && IsActive(rec) && rec.reminderSentAt.None? && !rec.overdueNotified
    && t == s.(borrows := s.borrows[rec.id := rec],
               nextBorrowId := s.nextBorrowId + 1,
               books := s.books[bookId := s.books[bookId].(status := Borrowed)])
  }

  /** Lending keeps the database's integrity. */
  lemma LentValid(s: Store, t: Store, rec: BorrowRecord, userId: Id, bookId: Id, now: Time)
    requires Valid(s) && userId in s.users && Lent(s, t, rec, userId, bookId, now)
    ensures Valid(t)
  {
    assert Keyed(t);
    assert ReferencesResolve(t);
    assert IsbnsUnique(t.books) by {
      forall a, b | a in t.books && b in t.books && t.books[a].isbn.Some? && t.books[a].isbn == t.books[b].isbn
        ensures a == b
      {
        assert s.books[a].isbn == t.books[a].isbn && s.books[b].isbn == t.books[b].isbn;
      }
    }
  }

  /** Lending a book that is not on loan keeps one unreturned record per book. */
  lemma LentOneActive(s: Store, t: Store, rec: BorrowRecord, userId: Id, bookId: Id, now: Time)
    requires OneActivePerBook(s.borrows) && !OnLoan(s.borrows, bookId)
    requires Lent(s, t, rec, userId, bookId, now)
    ensures OneActivePerBook(t.borrows)
  {
    forall a, b | a in t.borrows && b in t.borrows && IsActive(t.borrows[a]) && IsActive(t.borrows[b])
                  && t.borrows[a].bookId == t.borrows[b].bookId
      ensures a == b
    {
      if a != b && (a == rec.id || b == rec.id) {
        assert false;
      }
    }
  }

  /**
   * POST /borrow_book/{id}: only members borrow; the book must exist and must
   * not be out on another unreturned record. The new record is due fourteen
   * days later and the book is marked borrowed. A book id outside the
   * integer range fails the first query: 500.
   */
  function BorrowBook(s: Store, caller: User, bookId: Id, now: Time): (r: Response<(Store, BorrowRecord)>)
    requires Valid(s) && Authenticated(s, caller)
    ensures caller.role != Member ==> r == Failure(Forbidden)
    ensures caller.role == Member && !Int4(bookId) ==> r == Failure(InternalError)
    ensures caller.role == Member && Int4(bookId) && bookId !in s.books ==> r == Failure(NotFound)
    ensures caller.role == Member && Int4(bookId) && bookId in s.books && OnLoan(s.borrows, bookId) ==>
      r == Failure(BadRequest)
    ensures r.Success? <==> caller.role == Member && Int4(bookId) && bookId in s.books && !OnLoan(s.borrows, bookId)
    ensures r.Success? ==> Lent(s, r.value.0, r.value.1, caller.id, bookId, now)
    ensures r.Success? ==> Valid(r.value.0)
    ensures r.Success? && OneActivePerBook(s.borrows) ==> OneActivePerBook(r.value.0.borrows)
  {
    match RoleRequired({Member}, caller)
    case Failure(e) => Failure(e)
    case Success(_) =>
      if !Int4(bookId) then Failure(InternalError)
      else if bookId !in s.books then Failure(NotFound)
      else if ActiveLoans(s, bookId) != [] then Failure(BadRequest)
      else
        var rec := NewBorrowRecord(s.nextBorrowId, caller.id, bookId, now + LoanPeriod, now);
        var t := s.(borrows := s.borrows[rec.id := rec],
                    nextBorrowId := s.nextBorrowId + 1,
                    books := s.books[bookId := s.books[bookId].(status := Borrowed)]);
        LentValid(s, t, rec, caller.id, bookId, now);
        if OneActivePerBook(s.borrows) then
          LentOneActive(s, t, rec, caller.id, bookId, now);
          Success((t, rec))
        else Success((t, rec))
  }

  /** A record `userId` may return for book `bookId`: theirs, for that book, not yet returned. */
  predicate Returnable(x: BorrowRecord, userId: Id, bookId: Id) {
    x.bookId == bookId && x.userId == userId && IsActive(x)
  }

  ghost predicate HasReturnable(borrows: map<Id, BorrowRecord>, userId: Id, bookId: Id) {
    exists k :: k in borrows && Returnable(borrows[k], userId, bookId)
  }

  /** The caller's open records of the book, latest borrowing first. */
  function ReturnCandidates(s: Store, userId: Id, bookId: Id): (rs: seq<BorrowRecord>)
    requires Keyed(s)
    ensures forall x :: multiset(rs)[x] == (if InTable(s.borrows, x) && Returnable(x, userId, bookId) then 1 else 0)
    ensures SortedDesc(rs, BorrowedAtOf)
  {
    SortDesc(Filter(AllBorrows(s), (x: BorrowRecord) => Returnable(x, userId, bookId)), BorrowedAtOf)
  }

  /**
   * `t` is `s` after user `userId` returned book `bookId` at `now` through record
   * `rec`: the returnable record borrowed last, now closed, and the book available.
   */
  ghost predicate Returned(s: Store, t: Store, rec: BorrowRecord, userId: Id, bookId: Id, now: Time) {
    && rec.id in s.borrows && bookId in s.books
    && Returnable(s.borrows[rec.id], userId, bookId)
    && (forall k :: k in s.borrows && Returnable(s.borrows[k], userId, bookId) ==>
          s.borrows[k].borrowedAt <= s.borrows[rec.id].borrowedAt)
    && rec == s.borrows[rec.id].(returnedAt := Some(now))
    && t == s.(borrows := s.borrows[rec.id := rec],
               books := s.books[bookId := s.books[bookId].(status := Available)])
  }

  /** The returnable record of `userId` for `bookId` borrowed last, if there is one. */
  function LatestReturnable(s: Store, userId: Id, bookId: Id): (r: Option<BorrowRecord>)
    requires Keyed(s)
    ensures r.None? <==> !HasReturnable(s.borrows, userId, bookId)
    ensures r.Some? ==> r.value.id in s.borrows && s.borrows[r.value.id] == r.value
    ensures r.Some? ==> Returnable(r.value, userId, bookId)
    ensures r.Some? ==> forall k :: k in s.borrows && Returnable(s.borrows[k], userId, bookId) ==>
                          s.borrows[k].borrowedAt <= r.value.borrowedAt
  {
    var cands := ReturnCandidates(s, userId, bookId);
    assert HasReturnable(s.borrows, userId, bookId) ==> cands != [] by {
      if HasReturnable(s.borrows, userId, bookId) {
        var k :| k in s.borrows && Returnable(s.borrows[k], userId, bookId);
        assert multiset(cands)[s.borrows[k]] == 1;
      }
    }
    if cands == [] then None
    else
      var chosen := cands[0];
      assert InTable(s.borrows, chosen) && Returnable(chosen, userId, bookId) by {
        assert multiset(cands)[chosen] > 0;
      }
      assert forall k :: k in s.borrows && Returnable(s.borrows[k], userId, bookId) ==>
               s.borrows[k].borrowedAt <= chosen.borrowedAt by {
        forall k | k in s.borrows && Returnable(s.borrows[k], userId, bookId)
          ensures s.borrows[k].borrowedAt <= chosen.borrowedAt
        {
          assert multiset(cands)[s.borrows[k]] == 1;
          HeadIsLargest(cands, BorrowedAtOf, s.borrows[k]);
        }
      }
      Some(chosen)
  }

  /** Returning keeps the database's integrity. */
  lemma ReturnedValid(s: Store, t: Store, rec: BorrowRecord, userId: Id, bookId: Id, now: Time)
    requires Valid(s) && Returned(s, t, rec, userId, bookId, now)
    ensures Valid(t)
  {
    assert Keyed(t);
    assert ReferencesResolve(t);
    assert IsbnsUnique(t.books) by {
      forall a, b | a in t.books && b in t.books && t.books[a].isbn.Some? && t.books[a].isbn == t.books[b].isbn
        ensures a == b
      {
        assert s.books[a].isbn == t.books[a].isbn && s.books[b].isbn == t.books[b].isbn;
      }
    }
  }

  /** Returning only closes a record, so it keeps one unreturned record per book. */
  lemma ReturnedOneActive(s: Store, t: Store, rec: BorrowRecord, userId: Id, bookId: Id, now: Time)
    requires OneActivePerBook(s.borrows) && Returned(s, t, rec, userId, bookId, now)
    ensures OneActivePerBook(t.borrows)
  {
    forall a, b | a in t.borrows && b in t.borrows && IsActive(t.borrows[a]) && IsActive(t.borrows[b])
                  && t.borrows[a].bookId == t.borrows[b].bookId
      ensures a == b
    {
      assert a != rec.id && b != rec.id;
      assert t.borrows[a] == s.borrows[a] && t.borrows[b] == s.borrows[b];
    }
  }

  /**
   * PATCH /borrow_book/{id}/return: only members return; the caller needs an
   * unreturned record of the book. Of several, the one borrowed last is closed.
   * The book becomes available whatever its status was. A book id outside
   * the integer range fails the query: 500.
   */
  function ReturnBook(s: Store, caller: User, bookId: Id, now: Time): (r: Response<(Store, BorrowRecord)>)
    requires Valid(s) && Authenticated(s, caller)
    ensures caller.role != Member ==> r == Failure(Forbidden)
    ensures caller.role == Member && !Int4(bookId) ==> r == Failure(InternalError)
    ensures caller.role == Member && Int4(bookId) ==> (r.Success? <==> HasReturnable(s.borrows, caller.id, bookId))
    ensures caller.role == Member && Int4(bookId) && r.Failure? ==> r.error == BadRequest
    ensures r.Success? ==> Returned(s, r.value.0, r.value.1, caller.id, bookId, now)
    ensures r.Success? ==> Valid(r.value.0)
    ensures r.Success? && OneActivePerBook(s.borrows) ==> OneActivePerBook(r.value.0.borrows)
  {
    match RoleRequired({Member}, caller)
    case Failure(e) => Failure(e)
    case Success(_) =>
      if !Int4(bookId) then Failure(InternalError)
      else match LatestReturnable(s, caller.id, bookId)
      case None => Failure(BadRequest)
      case Some(chosen) =>
        var rec := chosen.(returnedAt := Some(now));
        var t := s.(borrows := s.borrows[chosen.id := rec],
                    books := s.books[bookId := s.books[bookId].(status := Available)]);
        ReturnedValid(s, t, rec, caller.id, bookId, now);
        if OneActivePerBook(s.borrows) then
          ReturnedOneActive(s, t, rec, caller.id, bookId, now);
          Success((t, rec))
        else Success((t, rec))
  }

  /** GET /borrow_book/me: every record of the calling member, latest borrowing first. */
  function GetMyBorrows(s: Store, caller: User): (r: Response<seq<BorrowRecord>>)
    requires Valid(s) && Authenticated(s, caller)
    ensures r.Success? <==> caller.role == Member
    ensures r.Failure? ==> r.error == Forbidden
    ensures r.Success? ==> forall x :: multiset(r.value)[x] ==
                                      (if InTable(s.borrows, x) && x.userId == caller.id then 1 else 0)
    ensures r.Success? ==> SortedDesc(r.value, BorrowedAtOf)
  {
    match RoleRequired({Member}, caller)
    case Failure(e) => Failure(e)
    case Success(_) =>
      Success(SortDesc(Filter(AllBorrows(s), (x: BorrowRecord) => x.userId == caller.id), BorrowedAtOf))
  }

  /** GET /borrow_book/active: for librarians, every unreturned record, latest borrowing first. */
  function GetActiveBorrows(s: Store, caller: User): (r: Response<seq<BorrowRecord>>)
    requires Valid(s) && Authenticated(s, caller)
    ensures r.Success? <==> caller.role == Librarian
    ensures r.Failure? ==> r.error == Forbidden
    ensures r.Success? ==> forall x :: multiset(r.value)[x] ==
                                      (if InTable(s.borrows, x) && IsActive(x) then 1 else 0)
    ensures r.Success? ==> SortedDesc(r.value, BorrowedAtOf)
  {
    match RoleRequired({Librarian}, caller)
    case Failure(e) => Failure(e)
    case Success(_) =>
      Success(SortDesc(Filter(AllBorrows(s), IsActive), BorrowedAtOf))
  }

  /** Right after a lend, the new record is the only unreturned one of its book. */
  lemma LentIsOnlyLoan(s: Store, t: Store, rec: BorrowRecord, userId: Id, bookId: Id, now: Time)
    requires !OnLoan(s.borrows, bookId) && Lent(s, t, rec, userId, bookId, now)
    ensures forall k :: k in t.borrows && t.borrows[k].bookId == bookId && IsActive(t.borrows[k]) ==> k == rec.id
  {
    forall k | k in t.borrows && t.borrows[k].bookId == bookId && IsActive(t.borrows[k])
      ensures k == rec.id
    {
      if k != rec.id {
        assert false;
      }
    }
  }

  /**
   * Borrowing and then returning the same book closes exactly the record the
   * borrow created, after which the book is free to be borrowed again.
   */
  lemma BorrowThenReturn(s: Store, caller: User, bookId: Id, now: Time, later: Time)
    requires Valid(s) && Authenticated(s, caller)
    requires BorrowBook(s, caller, bookId, now).Success?
    ensures var (t, rec) := BorrowBook(s, caller, bookId, now).value;
      && Authenticated(t, caller)
      && ReturnBook(t, caller, bookId, later).Success?
      && ReturnBook(t, caller, bookId, later).value.1 == rec.(returnedAt := Some(later))
      && ReturnBook(t, caller, bookId, later).value.0.books[bookId].status == Available
      && !OnLoan(ReturnBook(t, caller, bookId, later).value.0.borrows, bookId)
  {
    var (t, rec) := BorrowBook(s, caller, bookId, now).value;
    ReturnAfterLend(s, t, rec, caller, bookId, now, later);
  }

  /** The return half of `BorrowThenReturn`, stated over the lent state. */
  lemma ReturnAfterLend(s: Store, t: Store, rec: BorrowRecord, caller: User, bookId: Id, now: Time, later: Time)
    requires Valid(s) && Authenticated(s, caller) && caller.role == Member
    requires !OnLoan(s.borrows, bookId) && Lent(s, t, rec, caller.id, bookId, now) && Valid(t) && Int4(bookId)
    ensures Authenticated(t, caller)
    ensures ReturnBook(t, caller, bookId, later).Success?
    ensures ReturnBook(t, caller, bookId, later).value.1 == rec.(returnedAt := Some(later))
    ensures ReturnBook(t, caller, bookId, later).value.0.books[bookId].status == Available
    ensures !OnLoan(ReturnBook(t, caller, bookId, later).value.0.borrows, bookId)
  {
    LentIsOnlyLoan(s, t, rec, caller.id, bookId, now);
    assert t.borrows[rec.id] == rec;
    assert HasReturnable(t.borrows, caller.id, bookId);
    assert ReturnBook(t, caller, bookId, later).Success?;
  }
}
