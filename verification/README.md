# Library lending and notifications, modelled in Dafny

This project models the core of a library-management web service: members
borrow and return books, authors upload and edit the catalogue, librarians
watch overdue loans, and a background scheduler reminds borrowers of due
dates and reports overdue loans. Notifications are stored and pushed to the
recipient's live websocket connections through an in-memory connection
registry.

The database is an immutable `Models.Store`: one map from primary key to row
per table (users, books, borrow records, notifications) plus the next value
of each id serial. `Models.Valid` is the integrity the database enforces on
every committed state (keys, foreign keys, the unique email and ISBN indexes,
column widths); `Models.OneActivePerBook` is the lending invariant that each
book has at most one unreturned borrow record. Each endpoint is a pure
function from a store (and an authenticated caller) to a `Response`: either
the new store and the answer, or the HTTP failure the handler raises
(`Outcomes.Failure`: 400, 401, 403, 404, 422, or 500 for an error the handler
does not catch, such as a database constraint violation). Time is integer
seconds; dates are day numbers. Ids and paging values are unbounded integers
in the model; the database binds them as its 32-bit `integer` type
(`Models.Int4`), so an id, OFFSET or LIMIT outside that range is refused
before the query runs, and the endpoint answers 500.

Modules follow the program's structure:

- `Outcomes`, `Seqs`: result types; SQL-style filter, ORDER BY (a sort with a
  permutation guarantee) and OFFSET/LIMIT paging.
- `Models`: the records, their column defaults, the store, its integrity,
  notification insertion and the delete cascades.
- `Schemas`: request and token validation and the enumerations' wire values.
- `Auth`: bearer-token authentication (token decoding is a parameter) and the
  role guard.
- `Registry`: the websocket connection registry; `NotifyService`: store a
  notification, then push it.
- `Scheduler`: classification of a due date, the scan pass as written, the
  loop around it, and the evidently intended per-record pass.
- `Borrowing`, `Catalog`, `Accounts`, `NotificationRoutes`: the endpoints.

The borrow records carry `reminder_sent_at` and `overdue_notified` columns,
but nothing in the code writes them, so every scan pass repeats its notices
(`Scheduler.RescanRepeats`, `Scheduler.OverdueRepeatsEveryTick`). No code
path sends email, whatever the user's notification preference. Every
notification the code creates has the default type Reminder, and the notice
about an overdue loan meant for staff is a single notification tied to no
user.

## Model

| member | source | states |
|---|---|---|
| Models.NewUser | app/models.py:33-45 | a new user row keeps the given fields and its notification preference defaults to websocket |
| Models.NewBook | app/models.py:56-66 | a new book without a status is Available and without a publication date gets the current date; other fields are copied |
| Models.NewBorrowRecord | app/models.py:79-92 | a new borrow record is active, has no reminder time, is not marked overdue-notified, and records the borrow time and due time given |
| Models.NewNotification | app/models.py:98-106 | a notification created without a type is a Reminder and starts unread, with the given user (possibly none), message and creation time |
| Models.Coerce | app/models.py:38-62 | a varchar column stores a value that fits as it is, cuts an excess made only of spaces to exactly the width, and refuses any other excess; what it stores is a prefix of the value and fits |
| Models.CoerceAgain | app/models.py:38-62 | a value the column already holds is stored again unchanged |
| Models.InsertNotification | app/models.py:98-106 | inserting a notification assigns the next id, stores exactly that row, keeps the other tables and the database integrity |
| Models.InsertNotifications | app/services/scheduler.py:38-64 | inserting a list of notifications adds exactly one row per entry under consecutive ids, in order, and changes nothing else |
| Models.DeleteBookCascade | app/models.py:70-72 | deleting a book removes exactly its borrow records, keeps every other row unchanged, and preserves integrity and the one-active-loan invariant |
| Models.DeleteUserCascade | app/models.py:47-53 | deleting a user removes their books, their borrow records, the borrow records of their books and their notifications, and nothing else |
| Models.RowsOnce | app/routers/book.py:32-34 | a table read lists each stored row exactly once |
| Schemas.ParseRole | app/models.py:12-15 | a role string is accepted exactly when it is the wire value of a role, which is then returned |
| Schemas.ParsePreference | app/models.py:28-31 | a preference string is accepted exactly when it is the wire value of a preference |
| Schemas.ParseBookStatus | app/models.py:17-20 | a book status string is accepted exactly when it is a status's wire value (the overdue status is lower case) |
| Schemas.ValidatePreferencesUpdate | app/schemas.py:32-33 | a preference update succeeds iff the value is websocket, email or all; otherwise 422 |
| Schemas.ValidateRegistration | app/schemas.py:9-16 | a registration body is accepted iff the name has 1 to 120 characters, the email validator accepts the address, the password has 8 to 128 characters and the role is a known role; the accepted body carries the normalized address and the other fields unchanged |
| Schemas.ValidateRegistrationWithin | app/schemas.py:9-16 | the same validation for an arbitrary upper bound on the name length |
| Schemas.ParseDigits | app/schemas.py:40 | a digit string parses iff it is non-empty and all digits |
| Schemas.ParseShowNat | app/routers/auth.py:37 | the decimal string of a user id parses back to that id, as the integer subject claim does |
| Schemas.ParseSigned | app/schemas.py:40 | a sign followed by the decimal spelling of a number reads back as that number, negated for `-` |
| Schemas.ValidateTokenPayload | app/schemas.py:39-42 | a token payload validates iff it has an integer (or decimal string) subject, a known role and an integer expiry, which are returned |
| Schemas.LoginClaimsValidate | app/routers/auth.py:37-38 | the claims issued at login validate to the user's id and role |
| Auth.GetCurrentUser | app/dependencies.py:21-41 | authentication succeeds iff the token decodes, its payload validates and its subject fits the integer id column and is a stored user, who is returned; a subject outside the integer range fails the query outside the error catching (500); every other failure is 401 |
| Auth.RoleRequired | app/dependencies.py:44-49 | the guard accepts iff the user's role is among the allowed roles, returns the same user, and otherwise fails with 403 |
| Auth.LoginTokenAuthenticates | app/dependencies.py:30-41 | a token carrying the login claims of a stored user whose id fits the integer column authenticates exactly that user |
| Registry.Connect | app/realtime/manager.py:9-11 | an accepted connection is added to the user's set, which is created when absent; a failed handshake changes nothing; other users are untouched; no entry is ever empty |
| Registry.Disconnect | app/realtime/manager.py:13-19 | the connection is removed and the entry dropped once empty; an unknown user or absent connection is a no-op; no entry is ever empty |
| Registry.SendToUser | app/realtime/manager.py:21-34 | every connection in the snapshot is attempted, exactly the failed ones are removed, the rest stay; a user without an entry gets nothing |
| Registry.ConnectThenDisconnect | app/realtime/manager.py:9-19 | connecting a new connection and disconnecting it again restores the registry |
| Registry.SecondDeviceOnly | app/realtime/manager.py:9-34 | connect c1, connect c2, disconnect c1, send: only c2 is attempted and no other user's entry changes |
| NotifyService.PayloadFor | app/services/notification.py:24-35 | the push message has type "notification" and copies id, message, read flag and creation time from the stored row |
| NotifyService.CreateNotificationAndPush | app/services/notification.py:7-36 | the row (unread, created now, type Reminder) is stored before any push; a push happens iff there is a user id and goes to exactly that user's connections, after which the user's entry holds exactly the connections whose send did not fail and is gone when none is left, and no other entry changes; the stored row is returned; a user id naming no user is a 500 that stores and pushes nothing but uses up a notification id |
| Scheduler.Classify | app/services/scheduler.py:36-45 | due soon iff 0 < due - now <= 24 h (exactly 24 h included); past due iff due < now; neither when due == now; the cases exclude each other |
| Scheduler.ActiveRecords | app/services/scheduler.py:18-26 | the scan's candidates are exactly the stored records not yet returned |
| Scheduler.ActiveRecordsVisitOrder | app/services/scheduler.py:18-28 | the rows the query answers, in key order, are one order in which the loop may visit the active records |
| Scheduler.VisitOrderMembers | app/services/scheduler.py:18-28 | any order the unordered query may answer holds exactly the stored active records, as many as there are |
| Scheduler.LastVisited | app/services/scheduler.py:28-34 | the record the loop visits last, in whatever order the query answered, is a stored active record whose book and borrower exist |
| Scheduler.Notices | app/services/scheduler.py:36-64 | a due-soon record yields exactly one due-tomorrow notice for its borrower; a past-due one yields exactly two, the was-due notice for the borrower then the overdue notice naming the borrower for no user; a record due exactly now or later than 24 h yields none |
| Scheduler.Marked | app/services/scheduler.py:45-50 | a past-due record sets exactly its book's status to Overdue and changes nothing else; any other record leaves the store as it was; integrity holds |
| Scheduler.ApplyOne | app/services/scheduler.py:36-66 | classifying one record adds its notices, marks its book Overdue when past due, leaves other books and all borrow records and users unchanged |
| Scheduler.ScanPass | app/services/scheduler.py:14-66 | for every order the query may answer, a pass fails iff there is no active record; otherwise it applies the classification to the record visited last only, adds its notices and writes no borrow record or user |
| Scheduler.RescanRepeats | app/services/scheduler.py:14-66 | for the same answer order, a second pass at the same time classifies the same record and adds the same notices again |
| Scheduler.OneTick | app/services/scheduler.py:70-76 | one wake-up: a raising pass is caught and leaves the store as it was, a completing pass commits its store and adds the visited record's notices |
| Scheduler.SchedulerLoop | app/services/scheduler.py:68-76 | the loop runs one pass per tick, each with its own answer order; a raised pass leaves the store unchanged and the loop goes on; users and borrow records never change |
| Scheduler.LoopTicksAlike | app/services/scheduler.py:68-76 | whatever the answer orders, every tick ends alike: all raise when there is no active record, all complete otherwise |
| Scheduler.Ticks | app/services/scheduler.py:68-76 | the k-th wake-up is at start + k * interval |
| Scheduler.SchedulerRun | app/services/scheduler.py:12 | the loop run with the default hourly interval yields one outcome per tick and a valid store |
| Scheduler.LoopStep | app/services/scheduler.py:70-76 | a loop run is its first tick followed by the run from the store that tick left |
| Scheduler.OverdueTick | app/services/scheduler.py:45-66 | when every active record is past due, one tick adds exactly two notifications |
| Scheduler.OverdueRepeatsEveryTick | app/services/scheduler.py:45-76 | while every active record stays past due, every tick adds two more notifications, whatever the answer orders |
| Scheduler.ApplyEach | app/services/scheduler.py:28-66 | classifying each record in turn adds exactly the notices of every record, concatenated in the order of the records, under consecutive ids; a book becomes Overdue iff some past-due record refers to it, and every other book keeps its row |
| Scheduler.PastDueNotices | app/services/scheduler.py:45-64 | classifying records that are all past due adds exactly two notices per record |
| Scheduler.PastDueScan | app/services/scheduler.py:28-64 | when every active record is past due, the corrected pass adds two notifications per active record |
| Scheduler.ScanEachActive | app/services/scheduler.py:28-66 | the corrected pass classifies every active record, whatever the answer order: it adds exactly the notices of every record in the visiting order, marks Overdue exactly the books with a past-due active loan, keeps every other book's row, and leaves a store without loans unchanged |
| Scheduler.TwoLoansOrders | app/services/scheduler.py:18-26 | with two active loans the query answers them in one of exactly two orders |
| Scheduler.AsWrittenMarksLast | app/services/scheduler.py:28-50 | with two past-due loans the pass as written marks only the book of the loan visited last and adds two notices |
| Scheduler.IntendedMarksBoth | app/services/scheduler.py:28-50 | with two past-due loans the corrected pass marks both books Overdue, in either answer order |
| Scheduler.IntendedSendsFour | app/services/scheduler.py:28-64 | with two past-due loans the corrected pass adds four notices |
| Scheduler.AsWrittenMissesEarlierLoans | app/services/scheduler.py:28-45 | with two past-due loans, in either answer order, the pass as written marks exactly one of the two books and adds two notices; the corrected pass marks both and adds four |
| Scheduler.AsWrittenRaisesWithoutLoans | app/services/scheduler.py:28-36 | with no active loan the pass as written raises; the corrected pass changes nothing |
| Borrowing.ActiveLoans | app/routers/borrow_book.py:29-30 | the unreturned records of a book are empty iff the book is not on loan |
| Borrowing.LentValid | app/routers/borrow_book.py:35-43 | adding the new record and marking the book Borrowed keeps integrity |
| Borrowing.LentOneActive | app/routers/borrow_book.py:29-40 | lending a book that is not on loan keeps at most one active record per book |
| Borrowing.BorrowBook | app/routers/borrow_book.py:18-55 | non-members get 403, an id outside the integer range 500, a missing book 404, a book on loan 400; otherwise one record for the caller due 14 days later is added and the book set Borrowed, nothing else changes, integrity and one-active-loan hold |
| Borrowing.ReturnCandidates | app/routers/borrow_book.py:64-73 | the caller's unreturned records of the book, each once, latest borrowing first |
| Borrowing.LatestReturnable | app/routers/borrow_book.py:64-77 | there is a candidate iff the caller has an unreturned record of the book, and the one chosen has the latest borrow time |
| Borrowing.ReturnedValid | app/routers/borrow_book.py:79-82 | closing the record and making the book Available keeps integrity |
| Borrowing.ReturnedOneActive | app/routers/borrow_book.py:79-82 | closing a record keeps at most one active record per book |
| Borrowing.ReturnBook | app/routers/borrow_book.py:58-90 | non-members get 403; an id outside the integer range is 500; without an unreturned record of the caller for the book, 400; otherwise the latest such record gets returned_at = now, the book becomes Available and no other record changes |
| Borrowing.GetMyBorrows | app/routers/borrow_book.py:93-109 | members only; exactly the caller's records, each once, latest borrowing first |
| Borrowing.GetActiveBorrows | app/routers/borrow_book.py:111-128 | librarians only; exactly the unreturned records, each once, latest borrowing first |
| Borrowing.BorrowThenReturn | app/routers/borrow_book.py:18-90 | returning right after borrowing closes exactly the record the borrow created and frees the book |
| Borrowing.ReturnAfterLend | app/routers/borrow_book.py:58-90 | the return half of the previous row, over the state the lend produced |
| Catalog.HoldersOf | app/models.py:61 | the other books with an ISBN are empty iff no other book uses it |
| Catalog.CanStore | app/models.py:61-62 | the commit of a book row already coerced to its columns succeeds iff its ISBN and title fit and its ISBN is not another book's |
| Catalog.FitBook | app/models.py:61-62 | a book row is accepted iff its title and ISBN each pass their column's coercion; the row held then has the coerced title and ISBN, fits, keeps every other field, and is the row itself when it already fit |
| Catalog.StoreBookValid | app/models.py:56-72 | storing a storable book row keeps integrity |
| Catalog.UploadBook | app/routers/book.py:19-27 | authors only (403 otherwise, nothing changes); the upload succeeds iff the title and ISBN pass their columns' coercion and the coerced ISBN is no stored book's; the new book has the caller as author, the column defaults and the coerced text, and nothing else changes; a refused commit is a 500 that uses up a book id |
| Catalog.PaddedIsbnTaken | app/routers/book.py:19-27 | a 13-character ISBN sent with a trailing space is stored without it, so uploading it while a book carries the bare ISBN is a 500 |
| Catalog.GetAllBooks | app/routers/book.py:29-36 | every stored book exactly once |
| Catalog.ApplyUpdate | app/routers/book.py:48-49 | every field sent overwrites the stored one (null included), the others are kept; a null in a NOT NULL column fails |
| Catalog.UpdateBook | app/routers/book.py:38-53 | authors only, no ownership check; an id outside the integer range is 500; a missing book is 404; the update commits iff the patched row passes column coercion and the coerced row can be stored, and that row is then the only change; the answer is that row when the caller wrote the book, and a 500 after the commit otherwise, because the answer's author name is read through a relation the session holds only for the caller; a refused commit is 500 with nothing changed |
| Catalog.StoredIsStorable | app/models.py:61 | a stored book could be stored again as it is |
| Catalog.UpdateNothing | app/routers/book.py:48-53 | an update that sends no field changes nothing, and answers with the stored book, or with 500 when another author wrote it |
| Catalog.UpdateIdempotent | app/routers/book.py:38-53 | sending an update again after it committed leaves the store as it is and gets the same answer |
| Catalog.DeleteBook | app/routers/book.py:55-66 | authors only; an id outside the integer range is 500; a missing book is 404; otherwise exactly the book and its borrow records go, integrity and one-active-loan hold |
| Catalog.UploadThenDelete | app/routers/book.py:19-66 | deleting a book just uploaded restores every table |
| Accounts.UsersWithEmail | app/routers/user.py:23-24 | the users with an email are empty iff no user has it |
| Accounts.RegisterUser | app/routers/user.py:15-40 | a role other than Author or Member is 403 before the email check; a taken email is 400; otherwise the commit succeeds iff the name passes the name column's coercion, adding exactly one user with the coerced name, the hashed password and default preference, emails staying unique; a refused name is a 500 that uses up a user id |
| Accounts.Register | app/routers/user.py:15-16 | schema validation runs first and its failure is 422 with nothing changed; a valid body goes on to the handler with the normalized address; a stored user has the coerced name and the normalized address |
| Accounts.RegisterFitted | app/routers/user.py:15-40 | with the name bound lowered to the column width, registration succeeds iff the body is valid, the role self-service and the normalized address fresh; it never fails with 500, a refusal changes nothing, and the name is stored as sent |
| Accounts.RegisterTwice | app/routers/user.py:23-25 | registering the same email again is refused with 400 |
| Accounts.RegisterSameAddress | app/routers/user.py:22-25 | two addresses the validator normalizes alike are one account: once one is registered, a valid registration with the other is refused with 400 |
| Accounts.AsWrittenLongNameFails | app/models.py:38 | a 61-letter name passes validation and the registration then fails with 500, the first user id used up |
| Accounts.PaddedNameCut | app/models.py:38 | a 60-letter name followed by spaces registers, stored as the 60 letters |
| NotificationRoutes.Lower | app/routers/notification.py:85-87 | lower-casing keeps the length and lower-cases each ASCII letter |
| NotificationRoutes.Contains | app/routers/notification.py:85-87 | the substring test holds iff the term occurs at some position |
| NotificationRoutes.NotificationsOf | app/routers/notification.py:29-32 | exactly the user's notifications, each once, restricted to the read flag asked for |
| NotificationRoutes.PageDesc | app/routers/notification.py:34 | a page is a window of a descending ordering of the rows, itself descending and at most limit long |
| NotificationRoutes.NotificationPage | app/routers/notification.py:29-36 | the query runs iff skip and limit are both non-negative and fit the integer type, and is a 500 otherwise; otherwise the page is a window of the caller's filtered notifications, newest first |
| NotificationRoutes.ListMyNotifications | app/routers/notification.py:21-36 | succeeds iff skip and limit are non-negative and fit the integer type (500 otherwise); only the caller's notifications; with the flag given every result has is_read equal to it; newest first, then skip, then limit (by default 0 and 50) |
| NotificationRoutes.ReadFlagFor | app/routers/notification.py:31-32 | the read flag an unread filter asks for is its negation |
| NotificationRoutes.ListMyNotificationsCorrected | app/routers/notification.py:31-32 | with the flag read as named, unread=true lists only unread notifications |
| NotificationRoutes.AsWrittenUnreadListsRead | app/routers/notification.py:31-32 | for a user whose only notification is unread, asking for unread ones answers nothing as written and that notification when corrected |
| NotificationRoutes.MarkNotificationAsRead | app/routers/notification.py:38-59 | an id outside the integer range is 500; otherwise succeeds iff the notification exists and belongs to the caller (404 otherwise) and sets only its read flag |
| NotificationRoutes.MarkReadIdempotent | app/routers/notification.py:56 | marking the same notification again changes nothing |
| NotificationRoutes.MarkReadMovesToRead | app/routers/notification.py:56 | after marking, the notification is listed among the read ones and not among the unread |
| NotificationRoutes.OverdueRows | app/routers/notification.py:72-90 | exactly the unreturned records due strictly before now that match the search on borrower name, email or book title |
| NotificationRoutes.ListOverdue | app/routers/notification.py:61-94 | librarians only; a page of the overdue rows, earliest due first, at most limit long (by default 50, skipping 0); paging that is negative or outside the integer type is a 500 |
| NotificationRoutes.NoSearchKeepsAll | app/routers/notification.py:80 | no search term, or an empty one, filters nothing |
| NotificationRoutes.ManualScan | app/routers/notification.py:96-101 | librarians only; runs exactly one scan pass, in whatever order the query answers, and the pass raising is a 500 |
| NotificationRoutes.PlainRequestsAtMostFifty | app/routers/notification.py:21-27 | a listing request that sends no paging parameters answers at most 50 rows |

## Left out

- JSON Web Token decoding (signature, algorithm, expiry) is the parameter `decode` of `Auth.GetCurrentUser`; password hashing is the parameter `hash`; the email validator is the parameter `normalizeEmail`, which refuses an address or answers its normalized form. None is modelled further.
- Schemas.ParseInt: accepts an optional `+` or `-` sign followed by ASCII digits only; the other integer spellings the validator coerces (surrounding whitespace, underscores, integral floats) are not modelled.
- Websocket I/O: the handshake and each send are modelled by their outcome (`accepted`, the `failed` set); the receive loop of the websocket route is not part of this model.
- The SMTP email service is not part of this model: nothing in the core calls it.
- Concurrency and timing: asyncio scheduling, the sleep between passes and races (two borrows of one book, a manual scan during a scheduled one) are not modelled; every operation is one atomic step.
- Scheduler.Ticks: a pass takes no time, so the loop wakes exactly every interval; the infinite loop is modelled by its first n ticks.
- Scheduler.Notices: message texts are not formatted; a `Models.Message` carries the facts the text is built from (title, due time, user name).
- The `continue` on an empty due date is the last statement of the loop body and has no effect; due_at is NOT NULL, so the later use of an empty due date cannot happen and is not modelled.
- The scheduler's console logging of each run and each caught error is not modelled.
- NotificationRoutes.Contains: `%` and `_` inside a search term act as wildcards in the source's ILIKE pattern and are matched literally here; case is folded for ASCII letters only.
- Accounts.RegisterUser: the widths of the email column (255) and the password-hash column (80) are not checked; validated addresses are at most 254 characters and hash output is a parameter.
- Accounts.RegisterUser, Catalog.UploadBook: a refused insert uses up one id of the serial. PostgreSQL may also refuse an over-length value before it evaluates the id default, and then no id is drawn; the model always draws it, as it must for a key violation.
- Id serial exhaustion: the next value of an id serial is unbounded, while PostgreSQL refuses to draw one past 2^31 - 1. Catalog.UploadThenDelete, Catalog.UpdateNothing, Borrowing.ReturnAfterLend and Auth.LoginTokenAuthenticates therefore require the id they use to fit the integer column.
- NotifyService.CreateNotificationAndPush: the row is only flushed; the result store is the session state after the flush, and a caller's later rollback of the session is not modelled.
- Borrowing.BorrowBook: the database's clock (borrowed_at) and the application's clock (due_at) are the same reading `now`.
- Rows with equal sort keys may come back in any order; the listings state only that the result is some sorted permutation (`Seqs.IsPageDesc`).
- Response shaping (response models, loading related rows for the answer) is not modelled.
- The user directory routes (users.py, authors.py) and the engine, session, settings and application wiring are not part of this model.
- app/database.py defines no `get_session`, yet app/services/scheduler.py:9 and app/routers/notification.py:9 import it, so neither module imports as written. The scan, the loop and the manual scan are modelled as if `get_session` were an async context manager that yields a fresh session and rolls it back when the block raises.
- The scheduler loop and the manual scan use the pass as written; the corrected pass (`Scheduler.ScanEachActive`), the corrected listing and the corrected registration stand next to the as-written ones.

## Findings

| source | as written | input that shows it | evidently intended | confidence | as-written member | corrected member |
|---|---|---|---|---|---|---|
| app/services/scheduler.py:28-45 | the classification and its effects sit after the loop over active records, so only the last record visited is classified, and with no active record the unbound due date raises | two active loans both past due: only the second book becomes Overdue and two notices are added; no active loans: the pass raises | classify every active record inside the loop; with no loans do nothing | high, not executed | Scheduler.AsWrittenMissesEarlierLoans | Scheduler.ScanEachActive |
| app/models.py:38 | users.name is VARCHAR(60) while the registration schema allows names up to 120 characters | a valid registration with a 61-letter name fails at commit with 500 | the schema bound and the column width agree | high, not executed | Accounts.AsWrittenLongNameFails | Accounts.RegisterFitted |
| app/routers/notification.py:31-32 | the `unread` query flag is compared with `is_read` itself | a user whose only notification is unread asks for `unread=true` and gets an empty list | `unread=true` selects notifications with `is_read` false | medium, not executed | NotificationRoutes.AsWrittenUnreadListsRead | NotificationRoutes.ListMyNotificationsCorrected |
