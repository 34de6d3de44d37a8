/**
 * The persistent data model: the four tables (users, books, borrow records,
 * notifications), their column defaults, the integrity the database enforces
 * and the delete cascades declared on the relationships.
 */
module Models {
  import opened Outcomes

  /** A serial primary key. */
  type Id = int
  /** A timestamp, in whole seconds since the Unix epoch (UTC). */
  type Time = int
  /** A calendar date, in whole days since the Unix epoch. */
  type Day = int

  const SecondsPerDay: int := 24 * 60 * 60

  /** The UTC calendar date of a timestamp (floor division, also before the epoch). */
  function DayOf(t: Time): Day {
    t / SecondsPerDay
  }

  datatype Role = Librarian | Author | Member

  datatype BookStatus = Available | Borrowed | Overdue

  datatype NotificationType = Reminder | Overdue | System

  datatype NotificationPreference = Websocket | Email | All

  /**
   * Notification text. The scheduler's messages are formatted from a book
   * title, a user name and a due date; the formatting itself is not modelled,
   * only which facts a message carries.
   */
  datatype Message =
    | Text(body: string)
    | DueTomorrow(title: string, dueAt: Time)
    | WasDue(title: string, dueAt: Time)
    | BorrowerOverdue(userName: string, title: string)

  /**
   * A PostgreSQL `integer` spans -2^31 .. 2^31 - 1. Every id column has that
   * type, and the driver binds each id and each OFFSET and LIMIT as one; a
   * value outside the range is refused before the query runs.
   */
  const Int4Bound: int := 0x8000_0000

  predicate Int4(x: int) {
    -Int4Bound <= x < Int4Bound
  }

  /** Widths of the bounded text columns: users.name, books.isbn and books.title. */
  const NameWidth := 60
  const IsbnWidth := 13
  const TitleWidth := 200

  /**
   * The value a varchar column of width `width` stores for `v`: `v` itself
   * when it fits, `v` cut to the width when everything cut is a space, and
   * None when the database refuses the value.
   */
  function Coerce(v: string, width: nat): (r: Option<string>)
    ensures r.Some? <==> forall i :: width <= i < |v| ==> v[i] == ' '
    ensures |v| <= width ==> r == Some(v)
    ensures r.Some? ==> r.value <= v && |r.value| <= width
    ensures r.Some? && |v| > width ==> |r.value| == width
  {
    if |v| <= width then Some(v)
    else if forall i :: width <= i < |v| ==> v[i] == ' ' then Some(v[..width])
    else None
  }

  /** Coercing a value the column already holds changes nothing. */
  lemma CoerceAgain(v: string, width: nat)
    requires Coerce(v, width).Some?
    ensures Coerce(Coerce(v, width).value, width) == Coerce(v, width)
  {
  }

  datatype User = User(
    id: Id,
    name: string,
    email: string,
    password: string,      // the stored password hash
    role: Role,
    createdAt: Time,
    bio: Option<string>,
    birthdate: Option<Day>,
    preference: NotificationPreference)

  datatype Book = Book(
    id: Id,
    isbn: Option<string>,
    title: string,
    description: Option<string>,
    publishedDate: Day,
    status: BookStatus,
    createdAt: Time,
    authorId: Id)

  datatype BorrowRecord = BorrowRecord(
    id: Id,
    userId: Id,
    bookId: Id,
    borrowedAt: Time,
    dueAt: Time,
    returnedAt: Option<Time>,
    reminderSentAt: Option<Time>,
    overdueNotified: bool)

  datatype Notification = Notification(
    id: Id,
    userId: Option<Id>,    // None: tied to no user
    message: Message,
    kind: NotificationType,
    isRead: bool,
    createdAt: Time)

  /** A borrow record is active while it has not been returned. */
  predicate IsActive(r: BorrowRecord) {
    r.returnedAt.None?
  }

  /** A new user row: the notification preference takes its column default. */
  function NewUser(id: Id, name: string, email: string, passwordHash: string, role: Role,
                   bio: Option<string>, birthdate: Option<Day>, now: Time): (u: User)
    ensures u.preference == Websocket
    ensures u.id == id && u.name == name && u.email == email && u.password == passwordHash
    ensures u.role == role && u.bio == bio && u.birthdate == birthdate && u.createdAt == now
  {
    User(id, name, email, passwordHash, role, now, bio, birthdate, Websocket)
  }

  /**
   * A new book row. A status or publication date left unset takes the column
   * default: status Available, publication date the current date.
   */
  function NewBook(id: Id, isbn: Option<string>, title: string, description: Option<string>,
                   publishedDate: Option<Day>, status: Option<BookStatus>, authorId: Id, now: Time): (b: Book)
    ensures status.None? ==> b.status == Available
    ensures status.Some? ==> b.status == status.value
    ensures publishedDate.None? ==> b.publishedDate == DayOf(now)
    ensures publishedDate.Some? ==> b.publishedDate == publishedDate.value
    ensures b.id == id && b.isbn == isbn && b.title == title && b.description == description
    ensures b.authorId == authorId && b.createdAt == now
  {
    Book(id, isbn, title, description,
         if publishedDate.Some? then publishedDate.value else DayOf(now),
         if status.Some? then status.value else Available,
         now, authorId)
  }

  /**
   * A new borrow record: borrowed now, not returned, no reminder sent and not
   * yet flagged overdue.
   */
  function NewBorrowRecord(id: Id, userId: Id, bookId: Id, dueAt: Time, now: Time): (r: BorrowRecord)
    ensures IsActive(r)
    ensures r.reminderSentAt.None? && !r.overdueNotified
    ensures r.id == id && r.userId == userId && r.bookId == bookId
    ensures r.borrowedAt == now && r.dueAt == dueAt
  {
    BorrowRecord(id, userId, bookId, now, dueAt, None, None, false)
  }

  /** A new notification row created without a type: it is a Reminder, and unread. */
  function NewNotification(id: Id, userId: Option<Id>, message: Message, now: Time): (n: Notification)
    ensures n.kind == NotificationType.Reminder
    ensures !n.isRead
    ensures n.id == id && n.userId == userId && n.message == message && n.createdAt == now
  {
    Notification(id, userId, message, NotificationType.Reminder, false, now)
  }

  /** The database: one map per table, keyed by primary key, and the next value of each serial. */
  datatype Store = Store(
    users: map<Id, User>,
    books: map<Id, Book>,
    borrows: map<Id, BorrowRecord>,
    notifications: map<Id, Notification>,
    nextUserId: Id,
    nextBookId: Id,
    nextBorrowId: Id,
    nextNotificationId: Id)

  /** Every row is stored under its own id, which the serial has already handed out. */
  predicate Keyed(s: Store) {
    && 0 < s.nextUserId && 0 < s.nextBookId && 0 < s.nextBorrowId && 0 < s.nextNotificationId
    && (forall k :: k in s.users ==> s.users[k].id == k && 0 < k < s.nextUserId)
    && (forall k :: k in s.books ==> s.books[k].id == k && 0 < k < s.nextBookId)
    && (forall k :: k in s.borrows ==> s.borrows[k].id == k && 0 < k < s.nextBorrowId)
    && (forall k :: k in s.notifications ==> s.notifications[k].id == k && 0 < k < s.nextNotificationId)
  }

  /** Every foreign key names an existing row; a notification's user may be absent. */
  predicate ReferencesResolve(s: Store) {
    && (forall k :: k in s.books ==> s.books[k].authorId in s.users)
    && (forall k :: k in s.borrows ==> s.borrows[k].userId in s.users && s.borrows[k].bookId in s.books)
    && (forall k :: k in s.notifications && s.notifications[k].userId.Some? ==>
          s.notifications[k].userId.value in s.users)
  }

  /** No two users share an email (unique index on users.email). */
  predicate EmailsUnique(users: map<Id, User>) {
    forall a, b :: a in users && b in users && users[a].email == users[b].email ==> a == b
  }

  /** No two books share a non-null ISBN (unique index on books.isbn). */
  predicate IsbnsUnique(books: map<Id, Book>) {
    forall a, b :: a in books && b in books && books[a].isbn.Some? && books[a].isbn == books[b].isbn ==> a == b
  }

  /** The bounded text of a user row fits its column. */
  predicate UserFits(u: User) {
    |u.name| <= NameWidth
  }

  /** The bounded text of a book row fits its columns. */
  predicate BookFits(b: Book) {
    |b.title| <= TitleWidth && (b.isbn.Some? ==> |b.isbn.value| <= IsbnWidth)
  }

  /** No stored value is wider than its column. */
  predicate ColumnsFit(s: Store) {
    && (forall k :: k in s.users ==> UserFits(s.users[k]))
    && (forall k :: k in s.books ==> BookFits(s.books[k]))
  }

  /** The integrity the database enforces on every committed state. */
  predicate Valid(s: Store) {
    Keyed(s) && ReferencesResolve(s) && EmailsUnique(s.users) && IsbnsUnique(s.books) && ColumnsFit(s)
  }

  /** The lending invariant: each book has at most one active borrow record. */
  predicate OneActivePerBook(borrows: map<Id, BorrowRecord>) {
    forall a, b ::
      (a in borrows && b in borrows && IsActive(borrows[a]) && IsActive(borrows[b])
       && borrows[a].bookId == borrows[b].bookId) ==> a == b
  }

  /** The empty database. */
  function EmptyStore(): (s: Store)
    ensures Valid(s) && OneActivePerBook(s.borrows)
  {
    Store(map[], map[], map[], map[], 1, 1, 1, 1)
  }

  /**
   * What an endpoint that inserts a row leaves behind: the committed state and
   * its answer. The state matters on failure too, because an insert refused
   * at commit has already drawn its id from the serial.
   */
  datatype Handled<T> = Handled(store: Store, response: Response<T>)

  /** The user a logged-in request acts for is a stored row. */
  predicate Authenticated(s: Store, caller: User) {
    caller.id in s.users && s.users[caller.id] == caller
  }

  /** The rows of a table in primary-key order: how an unordered SELECT is modelled. */
  function Rows<T(==,!new)>(m: map<Id, T>, n: Id): (r: seq<T>)
    ensures forall x :: x in r <==> exists k :: k in m && 0 <= k < n && m[k] == x
    decreases n
  {
    if n <= 0 then []
    else Rows(m, n - 1) + if n - 1 in m then [m[n - 1]] else []
  }

  /** Distinct keys hold distinct rows. */
  ghost predicate Injective<T>(m: map<Id, T>) {
    forall a, b :: a in m && b in m && m[a] == m[b] ==> a == b
  }

  /** A table whose rows are distinct lists each row once. */
  lemma {:induction false} RowsOnce<T(!new)>(m: map<Id, T>, n: Id)
    requires Injective(m)
    ensures forall x :: multiset(Rows(m, n))[x] <= 1
    decreases n
  {
    if n > 0 {
      RowsOnce(m, n - 1);
      if n - 1 in m {
        forall x
          ensures multiset(Rows(m, n))[x] <= 1
        {
          assert Rows(m, n) == Rows(m, n - 1) + [m[n - 1]];
          if x == m[n - 1] {
            assert x !in Rows(m, n - 1);
          }
        }
      } else {
        assert Rows(m, n) == Rows(m, n - 1);
      }
    }
  }

  /** `x` is a row of table `m`. */
  ghost predicate InTable<T>(m: map<Id, T>, x: T) {
    exists k :: k in m && m[k] == x
  }

  /** When every key lies below `n`, the rows are exactly the stored ones. */
  lemma RowsAreTable<T(!new)>(m: map<Id, T>, n: Id)
    requires forall k :: k in m ==> 0 <= k < n
    ensures forall x :: x in Rows(m, n) <==> InTable(m, x)
  {
  }

  /** Every user, in primary-key order. */
  function AllUsers(s: Store): (rs: seq<User>)
    requires Keyed(s)
    ensures forall x :: x in rs <==> InTable(s.users, x)
    ensures forall x :: multiset(rs)[x] == if InTable(s.users, x) then 1 else 0
  {
    RowsAreTable(s.users, s.nextUserId);
    RowsOnce(s.users, s.nextUserId);
    Rows(s.users, s.nextUserId)
  }

  /** Every borrow record, in primary-key order. */
  function AllBorrows(s: Store): (rs: seq<BorrowRecord>)
    requires Keyed(s)
    ensures forall x :: x in rs <==> InTable(s.borrows, x)
    ensures forall x :: multiset(rs)[x] == if InTable(s.borrows, x) then 1 else 0
  {
    RowsAreTable(s.borrows, s.nextBorrowId);
    RowsOnce(s.borrows, s.nextBorrowId);
    Rows(s.borrows, s.nextBorrowId)
  }

  /** Every book, in primary-key order. */
  function AllBooks(s: Store): (rs: seq<Book>)
    requires Keyed(s)
    ensures forall x :: x in rs <==> InTable(s.books, x)
    ensures forall x :: multiset(rs)[x] == if InTable(s.books, x) then 1 else 0
  {
    RowsAreTable(s.books, s.nextBookId);
    RowsOnce(s.books, s.nextBookId);
    Rows(s.books, s.nextBookId)
  }

  /** Every notification, in primary-key order. */
  function AllNotifications(s: Store): (rs: seq<Notification>)
    requires Keyed(s)
    ensures forall x :: x in rs <==> InTable(s.notifications, x)
    ensures forall x :: multiset(rs)[x] == if InTable(s.notifications, x) then 1 else 0
  {
    RowsAreTable(s.notifications, s.nextNotificationId);
    RowsOnce(s.notifications, s.nextNotificationId);
    Rows(s.notifications, s.nextNotificationId)
  }

  /** Sort keys for the ORDER BY clauses. */
  function BorrowedAtOf(r: BorrowRecord): int { r.borrowedAt }
  function CreatedAtOf(n: Notification): int { n.createdAt }
  /** Descending by the negated due time is ascending by due time. */
  function NegatedDueAt(r: BorrowRecord): int { -r.dueAt }

  /** A notification request: the user it is for (or none) and its message. */
  type Notice = (Option<Id>, Message)

  /**
   * `r` is `s` with exactly the notifications `added` appended, in order, under
   * fresh ids, each unread, created at `now` and carrying the default type;
   * every other table is untouched.
   */
  ghost predicate AddsNotifications(s: Store, r: Store, added: seq<Notice>, now: Time) {
    && r.nextNotificationId == s.nextNotificationId + |added|
    && (forall k :: k in r.notifications <==>
          k in s.notifications || s.nextNotificationId <= k < s.nextNotificationId + |added|)
    && (forall k :: k in s.notifications ==> r.notifications[k] == s.notifications[k])
    && (forall i :: 0 <= i < |added| ==>
          var k := s.nextNotificationId + i;
          k in r.notifications && r.notifications[k] == NewNotification(k, added[i].0, added[i].1, now))
    && r.users == s.users && r.books == s.books && r.borrows == s.borrows
    && r.nextUserId == s.nextUserId && r.nextBookId == s.nextBookId && r.nextBorrowId == s.nextBorrowId
  }

  /** Inserts one notification row with the column defaults and returns it. */
  function InsertNotification(s: Store, userId: Option<Id>, message: Message, now: Time): (r: (Store, Notification))
    requires Valid(s)
    requires userId.Some? ==> userId.value in s.users
    ensures AddsNotifications(s, r.0, [(userId, message)], now)
    ensures r.1 == r.0.notifications[s.nextNotificationId] && r.1.id !in s.notifications
    ensures Valid(r.0)
  {
    var n := NewNotification(s.nextNotificationId, userId, message, now);
    (s.(notifications := s.notifications[n.id := n], nextNotificationId := n.id + 1), n)
  }

  /** Inserts notification rows in order; see `AddsNotifications`. */
  function InsertNotifications(s: Store, added: seq<Notice>, now: Time): (r: Store)
    requires Valid(s)
    requires forall i :: 0 <= i < |added| && added[i].0.Some? ==> added[i].0.value in s.users
    ensures AddsNotifications(s, r, added, now)
    ensures Valid(r)
    decreases |added|
  {
    if added == [] then s
    else
      var s1 := InsertNotification(s, added[0].0, added[0].1, now).0;
      var r := InsertNotifications(s1, added[1..], now);
      AddsNotificationsCompose(s, s1, r, [added[0]], added[1..], now);
      assert [added[0]] + added[1..] == added;
      r
  }

  /** Two batches of inserted notifications make one batch. */
  lemma AddsNotificationsCompose(s: Store, s1: Store, r: Store, xs: seq<Notice>, ys: seq<Notice>, now: Time)
    requires AddsNotifications(s, s1, xs, now)
    requires AddsNotifications(s1, r, ys, now)
    ensures AddsNotifications(s, r, xs + ys, now)
  {
    var zs := xs + ys;
    forall i | 0 <= i < |zs|
      ensures var k := s.nextNotificationId + i;
              k in r.notifications && r.notifications[k] == NewNotification(k, zs[i].0, zs[i].1, now)
    {
      if i < |xs| {
        assert zs[i] == xs[i];
      } else {
        assert zs[i] == ys[i - |xs|];
      }
    }
  }

  /** Adding notifications does not look at the books, so any books table may stand on both sides. */
  lemma AddsNotificationsRebook(s: Store, r: Store, added: seq<Notice>, now: Time, books: map<Id, Book>)
    requires AddsNotifications(s, r, added, now)
    ensures AddsNotifications(s.(books := books), r.(books := books), added, now)
  {
  }

  /** Every row of table `sub` is the row of `m` under the same key. */
  ghost predicate RowsOf<T>(sub: map<Id, T>, m: map<Id, T>) {
    forall k :: k in sub ==> k in m && sub[k] == m[k]
  }

  /** Keeping only some rows of a valid store, and only rows whose references survive, keeps it valid. */
  lemma SubStoreValid(s: Store, r: Store)
    requires Valid(s) && ReferencesResolve(r)
    requires RowsOf(r.users, s.users) && RowsOf(r.books, s.books)
    requires RowsOf(r.borrows, s.borrows) && RowsOf(r.notifications, s.notifications)
    requires r.nextUserId == s.nextUserId && r.nextBookId == s.nextBookId
    requires r.nextBorrowId == s.nextBorrowId && r.nextNotificationId == s.nextNotificationId
    ensures Valid(r)
    ensures OneActivePerBook(s.borrows) ==> OneActivePerBook(r.borrows)
  {
  }

  /** Deleting a book removes its borrow records with it (delete-orphan cascade). */
  function DeleteBookCascade(s: Store, id: Id): (r: Store)
    requires Valid(s)
    ensures r.books.Keys == s.books.Keys - {id}
    ensures forall k :: k in r.books ==> r.books[k] == s.books[k]
    ensures forall k :: k in r.borrows <==> k in s.borrows && s.borrows[k].bookId != id
    ensures forall k :: k in r.borrows ==> r.borrows[k] == s.borrows[k]
    ensures r.users == s.users && r.notifications == s.notifications
    ensures Valid(r)
    ensures OneActivePerBook(s.borrows) ==> OneActivePerBook(r.borrows)
  {
    s.(books := s.books - {id},
       borrows := map k | k in s.borrows && s.borrows[k].bookId != id :: s.borrows[k])
  }

  /**
   * Deleting a user removes the books they uploaded, their borrow records, the
   * borrow records of the removed books and their notifications.
   */
  function DeleteUserCascade(s: Store, id: Id): (r: Store)
    requires Valid(s)
    ensures r.users.Keys == s.users.Keys - {id}
    ensures forall k :: k in r.books <==> k in s.books && s.books[k].authorId != id
    ensures forall k :: k in r.borrows <==>
      k in s.borrows && s.borrows[k].userId != id && s.books[s.borrows[k].bookId].authorId != id
    ensures forall k :: k in r.notifications <==> k in s.notifications && s.notifications[k].userId != Some(id)
    ensures forall k :: k in r.users ==> r.users[k] == s.users[k]
    ensures forall k :: k in r.books ==> r.books[k] == s.books[k]
    ensures forall k :: k in r.borrows ==> r.borrows[k] == s.borrows[k]
    ensures forall k :: k in r.notifications ==> r.notifications[k] == s.notifications[k]
    ensures Valid(r)
    ensures OneActivePerBook(s.borrows) ==> OneActivePerBook(r.borrows)
  {
    var r := s.(users := s.users - {id},
       books := map k | k in s.books && s.books[k].authorId != id :: s.books[k],
       borrows := map k | k in s.borrows && s.borrows[k].userId != id && s.books[s.borrows[k].bookId].authorId != id
                    :: s.borrows[k],
       notifications := map k | k in s.notifications && s.notifications[k].userId != Some(id) :: s.notifications[k]);
    SubStoreValid(s, r);
    r
  }
}
