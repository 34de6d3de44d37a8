/**
 * The notification endpoints: a user's own notifications, marking one read,
 * the librarians' overdue list and the manual scan. Paging follows SQL: the
 * rows are ordered, then OFFSET skips `skip` of them and LIMIT keeps at most
 * `limit`; a negative offset or limit is refused by the database, which the
 * handlers do not catch.
 */
module NotificationRoutes {
  import opened Outcomes
  import opened Models
  import opened Seqs
  import opened Auth
  import Scheduler

  // ---- case-insensitive search ----

  /** ASCII lower case; other characters are left alone. */
  function LowerChar(c: char): char {
    if 'A' <= c <= 'Z' then (c as int + 32) as char else c
  }

  function Lower(s: string): (r: string)
    ensures |r| == |s| && forall i :: 0 <= i < |s| ==> r[i] == LowerChar(s[i])
  {
    seq(|s|, i requires 0 <= i < |s| => LowerChar(s[i]))
  }

  /** `needle` occurs in `hay` starting at position `i`. */
  ghost predicate OccursAt(hay: string, needle: string, i: int) {
    0 <= i && i + |needle| <= |hay| && hay[i..i + |needle|] == needle
  }

  /** Whether `needle` occurs anywhere in `hay`. */
  function Contains(hay: string, needle: string): (r: bool)
    ensures r <==> exists i :: OccursAt(hay, needle, i)
    decreases |hay|
  {
    if |needle| > |hay| then
      false
    else if hay[..|needle|] == needle then
      assert OccursAt(hay, needle, 0);
      true
    else
      var r := Contains(hay[1..], needle);
      assert r ==> exists i :: OccursAt(hay, needle, i) by {
        if r {
          var i :| OccursAt(hay[1..], needle, i);
          assert hay[1..][i..i + |needle|] == hay[i + 1..i + 1 + |needle|];
          assert OccursAt(hay, needle, i + 1);
        }
      }
      assert (exists i :: OccursAt(hay, needle, i)) ==> r by {
        if exists i :: OccursAt(hay, needle, i) {
          var i :| OccursAt(hay, needle, i);
          assert i != 0;
          assert hay[1..][i - 1..i - 1 + |needle|] == hay[i..i + |needle|];
          assert OccursAt(hay[1..], needle, i - 1);
        }
      }
      r
  }

  /** `needle` occurs in `hay` when case is ignored. */
  function ContainsIgnoringCase(hay: string, needle: string): bool {
    Contains(Lower(hay), Lower(needle))
  }

  // ---- GET /notifications/ ----

  /**
   * The notifications of user `userId`, restricted to those whose read flag
   * equals `isRead` when that is given.
   */
  function NotificationsOf(s: Store, userId: Id, isRead: Option<bool>): (rs: seq<Notification>)
    requires Keyed(s)
    ensures forall n :: multiset(rs)[n] ==
                        (if InTable(s.notifications, n) && n.userId == Some(userId)
                            && (isRead.Some? ==> n.isRead == isRead.value) then 1 else 0)
  {
    Filter(AllNotifications(s), (n: Notification) =>
             n.userId == Some(userId) && (isRead.None? || n.isRead == isRead.value))
  }

  /** One page of `rows` in descending `key` order. */
  function PageDesc<T(==,!new)>(rows: seq<T>, key: T -> int, skip: nat, limit: nat): (r: seq<T>)
    ensures IsPageDesc(r, rows, key, skip, limit)
    ensures SortedDesc(r, key)
    ensures |r| <= limit
    ensures forall x :: x in r ==> x in rows
  {
    var ordered := SortDesc(rows, key);
    var r := Window(ordered, skip, limit);
    assert forall x :: x in r ==> x in ordered;
    assert forall x :: x in ordered ==> x in rows by {
      forall x | x in ordered ensures x in rows {
        assert multiset(ordered)[x] > 0;
      }
    }
    r
  }

  /**
   * OFFSET `skip` LIMIT `limit` runs: both are bound as integers, so each must
   * fit that type, and PostgreSQL refuses a negative one.
   */
  predicate PagingRuns(skip: int, limit: int) {
    0 <= skip < Int4Bound && 0 <= limit < Int4Bound
  }

  /**
   * The page of the caller's notifications the listing answers with, given
   * the read flag its filter compares against.
   */
  function NotificationPage(s: Store, caller: User, isRead: Option<bool>, skip: int, limit: int)
    : (r: Response<seq<Notification>>)
    requires Valid(s)
    ensures r.Success? <==> PagingRuns(skip, limit)
    ensures r.Failure? ==> r.error == InternalError
    ensures r.Success? ==>
      && skip >= 0 && limit >= 0
      && IsPageDesc(r.value, NotificationsOf(s, caller.id, isRead), CreatedAtOf, skip, limit)
    ensures r.Success? ==> SortedDesc(r.value, CreatedAtOf) && |r.value| <= limit
    ensures r.Success? ==> forall n :: n in r.value ==>
      InTable(s.notifications, n) && n.userId == Some(caller.id) && (isRead.Some? ==> n.isRead == isRead.value)
  {
    if !PagingRuns(skip, limit) then Failure(InternalError)
    else
      var rows := NotificationsOf(s, caller.id, isRead);
      var page := PageDesc(rows, CreatedAtOf, skip, limit);
      assert forall n :: n in page ==> multiset(rows)[n] > 0;
      Success(page)
  }

  /** The page size a listing uses when the request gives none. */
  const DefaultLimit: int := 50

  /**
   * As written: the `unread` query flag is compared with `is_read` itself, so
   * `unread=true` selects the notifications already read.
   */
  function ListMyNotifications(s: Store, caller: User, unread: Option<bool> := None,
                               skip: int := 0, limit: int := DefaultLimit)
    : (r: Response<seq<Notification>>)
    requires Valid(s) && Authenticated(s, caller)
    ensures r.Success? <==> PagingRuns(skip, limit)
    ensures r.Failure? ==> r.error == InternalError
    ensures r.Success? ==> |r.value| <= limit
    ensures r.Success? ==> forall n :: n in r.value ==>
      InTable(s.notifications, n) && n.userId == Some(caller.id) && (unread.Some? ==> n.isRead == unread.value)
    ensures r.Success? ==>
      IsPageDesc(r.value, NotificationsOf(s, caller.id, unread), CreatedAtOf, skip, limit)
  {
    NotificationPage(s, caller, unread, skip, limit)
  }

  /** With the flag read the way its name says: `unread=true` selects the unread notifications. */
  function ListMyNotificationsCorrected(s: Store, caller: User, unread: Option<bool> := None,
                                        skip: int := 0, limit: int := DefaultLimit)
    : (r: Response<seq<Notification>>)
    requires Valid(s) && Authenticated(s, caller)
    ensures r.Success? <==> PagingRuns(skip, limit)
    ensures r.Failure? ==> r.error == InternalError
    ensures r.Success? ==> |r.value| <= limit
    ensures r.Success? ==> forall n :: n in r.value ==>
      InTable(s.notifications, n) && n.userId == Some(caller.id) && (unread.Some? ==> n.isRead == !unread.value)
    ensures r.Success? ==> IsPageDesc(r.value, NotificationsOf(s, caller.id, ReadFlagFor(unread)), CreatedAtOf, skip, limit)
  {
    NotificationPage(s, caller, ReadFlagFor(unread), skip, limit)
  }

  /** The `is_read` value an `unread` flag asks for. */
  function ReadFlagFor(unread: Option<bool>): (r: Option<bool>)
    ensures r.Some? <==> unread.Some?
    ensures r.Some? ==> r.value != unread.value
  {
    if unread.Some? then Some(!unread.value) else None
  }

  /** A member with one notification, not yet read. */
  function OneUnread(): (s: Store)
    ensures Valid(s)
  {
    var u := NewUser(1, "Ada", "ada@example.org", "hash", Member, None, None, 0);
    var n := NewNotification(1, Some(1), Text("welcome"), 0);
    Store(map[1 := u], map[], map[], map[1 := n], 2, 1, 1, 2)
  }

  /**
   * Asking for the unread notifications of a user whose only notification is
   * unread: as written the answer is empty, corrected it is that notification.
   */
  lemma AsWrittenUnreadListsRead()
    ensures var s := OneUnread();
      && Authenticated(s, s.users[1])
      && !s.notifications[1].isRead
      && ListMyNotifications(s, s.users[1], Some(true), 0, 50) == Success([])
      && ListMyNotificationsCorrected(s, s.users[1], Some(true), 0, 50) == Success([s.notifications[1]])
  {
    UnreadAsWritten();
    UnreadCorrected();
  }

  /** The as-written half of `AsWrittenUnreadListsRead`. */
  lemma UnreadAsWritten()
    ensures var s := OneUnread();
      Authenticated(s, s.users[1]) && ListMyNotifications(s, s.users[1], Some(true), 0, 50) == Success([])
  {
    var s := OneUnread();
    var asWritten := ListMyNotifications(s, s.users[1], Some(true), 0, 50);
    assert asWritten.Success?;
  }

  /** The corrected half of `AsWrittenUnreadListsRead`. */
  lemma UnreadCorrected()
    ensures var s := OneUnread();
      && Authenticated(s, s.users[1])
      && ListMyNotificationsCorrected(s, s.users[1], Some(true), 0, 50) == Success([s.notifications[1]])
  {
    var s := OneUnread();
    var n := s.notifications[1];
    var corrected := ListMyNotificationsCorrected(s, s.users[1], Some(true), 0, 50);
    OneUnreadRows();
    var ordered :| multiset(ordered) == multiset([n]) && SortedDesc(ordered, CreatedAtOf)
                   && corrected.value == Window(ordered, 0, 50);
    assert |ordered| == 1;
    assert ordered[0] in multiset(ordered);
  }

  /** The only unread notification of `OneUnread` is its one notification. */
  lemma OneUnreadRows()
    ensures NotificationsOf(OneUnread(), 1, Some(false)) == [OneUnread().notifications[1]]
  {
    var s := OneUnread();
    var n := s.notifications[1];
    var rows := NotificationsOf(s, 1, Some(false));
    assert multiset(rows)[n] == 1;
    assert forall m :: m in rows ==> m == n by {
      forall m | m in rows ensures m == n {
        assert multiset(rows)[m] > 0;
      }
    }
    assert |rows| == 1 by {
      assert multiset(rows) == multiset{n} by {
        forall m ensures multiset(rows)[m] == multiset{n}[m] {
          if m != n {
            assert m !in rows;
          }
        }
      }
    }
    assert rows == [n];
  }

  // ---- PATCH /notifications/{id}/read ----

  /**
   * Marks one of the caller's notifications read; anyone else's is not found.
   * An id outside the integer range fails the query: 500.
   */
  function MarkNotificationAsRead(s: Store, caller: User, id: Id): (r: Response<Store>)
    requires Valid(s) && Authenticated(s, caller)
    ensures !Int4(id) ==> r == Failure(InternalError)
    ensures r.Success? <==> Int4(id) && id in s.notifications && s.notifications[id].userId == Some(caller.id)
    ensures Int4(id) && r.Failure? ==> r.error == NotFound
    ensures r.Success? ==> r.value.notifications == s.notifications[id := s.notifications[id].(isRead := true)]
    ensures r.Success? ==> r.value == s.(notifications := r.value.notifications)
    ensures r.Success? ==> Valid(r.value)
  {
    if !Int4(id) then Failure(InternalError)
    else if id in s.notifications && s.notifications[id].userId == Some(caller.id) then
      Success(s.(notifications := s.notifications[id := s.notifications[id].(isRead := true)]))
    else
      Failure(NotFound)
  }

  /** Marking a notification read a second time changes nothing more. */
  lemma MarkReadIdempotent(s: Store, caller: User, id: Id)
    requires Valid(s) && Authenticated(s, caller)
    requires MarkNotificationAsRead(s, caller, id).Success?
    ensures var t := MarkNotificationAsRead(s, caller, id).value;
      Authenticated(t, caller) && MarkNotificationAsRead(t, caller, id) == Success(t)
  {
    var t := MarkNotificationAsRead(s, caller, id).value;
    assert t.notifications[id := t.notifications[id].(isRead := true)] == t.notifications;
  }

  /** After marking, the notification is among the caller's read ones and no longer among the unread. */
  lemma MarkReadMovesToRead(s: Store, caller: User, id: Id)
    requires Valid(s) && Authenticated(s, caller)
    requires MarkNotificationAsRead(s, caller, id).Success?
    ensures var t := MarkNotificationAsRead(s, caller, id).value;
      && (forall n :: n in NotificationsOf(t, caller.id, Some(false)) ==> n.id != id)
      && t.notifications[id] in NotificationsOf(t, caller.id, Some(true))
  {
    var t := MarkNotificationAsRead(s, caller, id).value;
    assert multiset(NotificationsOf(t, caller.id, Some(true)))[t.notifications[id]] == 1;
    forall n | n in NotificationsOf(t, caller.id, Some(false))
      ensures n.id != id
    {
      assert multiset(NotificationsOf(t, caller.id, Some(false)))[n] > 0;
    }
  }

  // ---- GET /notifications/overdue ----

  /** A search term narrows the list only when it is non-empty. */
  predicate Searching(search: Option<string>) {
    search.Some? && search.value != []
  }

  /** Record `x` matches `search` on its borrower's name or email or its book's title. */
  predicate MatchesSearch(s: Store, x: BorrowRecord, search: Option<string>) {
    !Searching(search) ||
    (x.userId in s.users && x.bookId in s.books &&
     (|| ContainsIgnoringCase(s.users[x.userId].name, search.value)
      || ContainsIgnoringCase(s.users[x.userId].email, search.value)
      || ContainsIgnoringCase(s.books[x.bookId].title, search.value)))
  }

  /** The unreturned records due strictly before `now` that match `search`. */
  function OverdueRows(s: Store, now: Time, search: Option<string>): (rs: seq<BorrowRecord>)
    requires Keyed(s)
    ensures forall x :: multiset(rs)[x] ==
                        (if InTable(s.borrows, x) && IsActive(x) && x.dueAt < now && MatchesSearch(s, x, search)
                         then 1 else 0)
  {
    Filter(AllBorrows(s), (x: BorrowRecord) => IsActive(x) && x.dueAt < now && MatchesSearch(s, x, search))
  }

  /**
   * Librarians only: the overdue records, earliest due date first, paged.
   * `now` is the request's clock reading.
   */
  function ListOverdue(s: Store, caller: User, now: Time, search: Option<string> := None,
                       limit: int := DefaultLimit, skip: int := 0)
    : (r: Response<seq<BorrowRecord>>)
    requires Valid(s) && Authenticated(s, caller)
    ensures caller.role != Librarian ==> r == Failure(Forbidden)
    ensures caller.role == Librarian ==> (r.Success? <==> PagingRuns(skip, limit))
    ensures caller.role == Librarian && r.Failure? ==> r.error == InternalError
    ensures r.Success? ==>
      && skip >= 0 && limit >= 0
      && IsPageDesc(r.value, OverdueRows(s, now, search), NegatedDueAt, skip, limit)
    ensures r.Success? ==> |r.value| <= limit
    ensures r.Success? ==> forall i, j :: 0 <= i < j < |r.value| ==> r.value[i].dueAt <= r.value[j].dueAt
    ensures r.Success? ==> forall x :: x in r.value ==>
      InTable(s.borrows, x) && IsActive(x) && x.dueAt < now && MatchesSearch(s, x, search)
  {
    match RoleRequired({Librarian}, caller)
    case Failure(e) => Failure(e)
    case Success(_) =>
      if !PagingRuns(skip, limit) then Failure(InternalError)
      else
        var rows := OverdueRows(s, now, search);
        var page := PageDesc(rows, NegatedDueAt, skip, limit);
        assert forall x :: x in page ==> multiset(rows)[x] > 0;
        assert forall i, j :: 0 <= i < j < |page| ==> NegatedDueAt(page[i]) >= NegatedDueAt(page[j]);
        Success(page)
  }

  /** Without a search term, every overdue record is a candidate row. */
  lemma NoSearchKeepsAll(s: Store, now: Time, x: BorrowRecord)
    requires Keyed(s) && InTable(s.borrows, x) && IsActive(x) && x.dueAt < now
    ensures x in OverdueRows(s, now, None) && x in OverdueRows(s, now, Some(""))
  {
    assert multiset(OverdueRows(s, now, None))[x] == 1;
    assert multiset(OverdueRows(s, now, Some("")))[x] == 1;
  }

  // ---- POST /notifications/scan ----

  /**
   * Librarians only: one scan pass, visiting the active records in `order`;
   * the pass raising surfaces as an unhandled error.
   */
  function ManualScan(s: Store, caller: User, now: Time, order: seq<BorrowRecord>): (r: Response<Store>)
    requires Valid(s) && Authenticated(s, caller) && Scheduler.IsVisitOrder(s.borrows, order)
    ensures caller.role != Librarian ==> r == Failure(Forbidden)
    ensures caller.role == Librarian ==> (r.Success? <==> Scheduler.ActiveRecords(s) != [])
    ensures caller.role == Librarian && r.Failure? ==> r.error == InternalError
    ensures r.Success? ==> Scheduler.ScanPass(s, now, order) == Success(r.value)
    ensures r.Success? ==> Valid(r.value) && r.value.borrows == s.borrows && r.value.users == s.users
  {
    match RoleRequired({Librarian}, caller)
    case Failure(e) => Failure(e)
    case Success(_) =>
      match Scheduler.ScanPass(s, now, order)
      case Failure(_) => Failure(InternalError)
      case Success(t) => Success(t)
  }

  /** A request without paging parameters answers at most 50 rows and never fails. */
  lemma PlainRequestsAtMostFifty(s: Store, caller: User, now: Time)
    requires Valid(s) && Authenticated(s, caller)
    ensures ListMyNotifications(s, caller).Success? && |ListMyNotifications(s, caller).value| <= 50
    ensures caller.role == Librarian ==>
      ListOverdue(s, caller, now).Success? && |ListOverdue(s, caller, now).value| <= 50
  {
  }
}
