/**
 * The due/overdue scan and the loop that runs it every hour.
 *
 * The scan loads the active borrow records, walks them, and then classifies
 * ONE record: the classification and its effects sit after the loop, so they
 * apply to the record the loop visited last, and with no active record at
 * all the pass raises (the due date it reads was never bound). `ScanPass`
 * models that behaviour; `ScanEachActive` is the evidently intended pass that
 * classifies every active record.
 *
 * The query has no ORDER BY, so the order the records are visited in is the
 * database's choice: every pass takes it as a parameter, any arrangement of
 * the active records (`IsVisitOrder`), and its contract holds for all of them.
 */
module Scheduler {
  import opened Outcomes
  import opened Models
  import opened Seqs

  /** How far ahead of a due date a reminder is sent. */
  const ReminderWindow: int := 24 * 60 * 60

  /** The default pause between two passes of the loop. */
  const CheckInterval: int := 60 * 60

  datatype Classification = DueSoon | PastDue | Quiet

  /**
   * Classifies a due date against the current time: a reminder inside the
   * 24-hour window (a due date exactly 24 hours ahead included), overdue once
   * the due date has passed, nothing when it is exactly now or further ahead.
   */
  function Classify(now: Time, due: Time): (c: Classification)
    ensures c == DueSoon <==> 0 < due - now <= ReminderWindow
    ensures c == PastDue <==> due < now
    ensures c == Quiet <==> due == now || due - now > ReminderWindow
  {
    if now < due && due - now <= ReminderWindow then DueSoon
    else if now > due then PastDue
    else Quiet
  }

  /** The pass raised: there was no active record, so no due date was ever bound. */
  datatype ScanError = DueDateUnbound

  /** The scan's candidates: exactly the records not yet returned, in primary-key order. */
  function ActiveRecords(s: Store): (rs: seq<BorrowRecord>)
    requires Valid(s)
    ensures forall x :: x in rs <==> InTable(s.borrows, x) && IsActive(x)
    ensures forall x :: x in rs ==> x.bookId in s.books && x.userId in s.users
  {
    Filter(AllBorrows(s), IsActive)
  }

  /** The candidates depend on the borrow table alone. */
  lemma ActiveRecordsFrame(s: Store, t: Store)
    requires Valid(s) && Valid(t)
    requires s.borrows == t.borrows && s.nextBorrowId == t.nextBorrowId
    ensures ActiveRecords(s) == ActiveRecords(t)
  {
  }

  /** An order the unordered query may return the active records in: each of them once, nothing else. */
  ghost predicate IsVisitOrder(borrows: map<Id, BorrowRecord>, order: seq<BorrowRecord>) {
    forall x :: multiset(order)[x] == if InTable(borrows, x) && IsActive(x) then 1 else 0
  }

  /** Primary-key order is one of the orders the records may come in. */
  lemma ActiveRecordsVisitOrder(s: Store)
    requires Valid(s)
    ensures IsVisitOrder(s.borrows, ActiveRecords(s))
  {
  }

  /** The records of a visit order are exactly the active ones. */
  lemma VisitOrderMembers(s: Store, order: seq<BorrowRecord>)
    requires Valid(s) && IsVisitOrder(s.borrows, order)
    ensures |order| == |ActiveRecords(s)|
    ensures forall x :: x in order <==> InTable(s.borrows, x) && IsActive(x)
  {
    var rs := ActiveRecords(s);
    ActiveRecordsVisitOrder(s);
    assert multiset(order) == multiset(rs) by {
      forall x
        ensures multiset(order)[x] == multiset(rs)[x]
      {
      }
    }
    assert |order| == |multiset(order)| == |multiset(rs)| == |rs|;
    forall x
      ensures x in order <==> InTable(s.borrows, x) && IsActive(x)
    {
      assert x in order <==> x in multiset(order);
    }
  }

  /** The record visited last, which the pass as written classifies. */
  function LastVisited(s: Store, order: seq<BorrowRecord>): (rec: BorrowRecord)
    requires Valid(s) && IsVisitOrder(s.borrows, order) && order != []
    ensures InTable(s.borrows, rec) && IsActive(rec)
    ensures rec.bookId in s.books && rec.userId in s.users
  {
    VisitOrderMembers(s, order);
    order[|order| - 1]
  }

  /**
   * The notifications classifying `rec` creates: for a record due soon, one
   * for the borrower; for a past-due record, one for the borrower and one
   * tied to no user; otherwise none.
   */
  function Notices(s: Store, rec: BorrowRecord, now: Time): (ns: seq<Notice>)
    requires rec.bookId in s.books && rec.userId in s.users
    ensures |ns| == NoticeCount(now, rec.dueAt)
    ensures 0 < rec.dueAt - now <= ReminderWindow ==>
      ns == [(Some(rec.userId), DueTomorrow(s.books[rec.bookId].title, rec.dueAt))]
    ensures rec.dueAt < now ==>
      && |ns| == 2
      && ns[0] == (Some(rec.userId), WasDue(s.books[rec.bookId].title, rec.dueAt))
      && ns[1] == (None, BorrowerOverdue(s.users[rec.userId].name, s.books[rec.bookId].title))
    ensures rec.dueAt == now || rec.dueAt - now > ReminderWindow ==> ns == []
  {
    var title := s.books[rec.bookId].title;
    match Classify(now, rec.dueAt)
    case DueSoon => [(Some(rec.userId), DueTomorrow(title, rec.dueAt))]
    case PastDue => [(Some(rec.userId), WasDue(title, rec.dueAt)),
                     (None, BorrowerOverdue(s.users[rec.userId].name, title))]
    case Quiet => []
  }

  /** The store with the record's book marked Overdue when the record is past due. */
  function Marked(s: Store, rec: BorrowRecord, now: Time): (r: Store)
    requires Valid(s) && rec.bookId in s.books
    ensures rec.dueAt < now ==>
      r == s.(books := s.books[rec.bookId := s.books[rec.bookId].(status := BookStatus.Overdue)])
    ensures rec.dueAt >= now ==> r == s
    ensures Valid(r)
  {
    if Classify(now, rec.dueAt) == PastDue
    then s.(books := s.books[rec.bookId := s.books[rec.bookId].(status := BookStatus.Overdue)])
    else s
  }

  /**
   * What classifying `rec` does to the store: the book status change of the
   * branch, then its notifications, each unread, created now and of the
   * default type (Reminder). No borrow record is written.
   */
  ghost predicate ClassifiedEffect(s: Store, r: Store, rec: BorrowRecord, now: Time)
    requires Valid(s) && rec.bookId in s.books && rec.userId in s.users
  {
    AddsNotifications(Marked(s, rec, now), r, Notices(s, rec, now), now)
  }

  /** The number of notifications classifying a record with this due date adds. */
  function NoticeCount(now: Time, due: Time): nat {
    match Classify(now, due)
    case DueSoon => 1
    case PastDue => 2
    case Quiet => 0
  }

  /** Classifies one record and applies the branch's effects. */
  function ApplyOne(s: Store, rec: BorrowRecord, now: Time): (r: Store)
    requires Valid(s) && rec.bookId in s.books && rec.userId in s.users
    ensures Valid(r)
    ensures ClassifiedEffect(s, r, rec, now)
    ensures r.users == s.users && r.borrows == s.borrows
    ensures r.nextBorrowId == s.nextBorrowId && r.books.Keys == s.books.Keys
    ensures r.nextNotificationId == s.nextNotificationId + NoticeCount(now, rec.dueAt)
    ensures forall k :: k in s.books && k != rec.bookId ==> r.books[k] == s.books[k]
    ensures forall k :: k in s.books ==> r.books[k].(status := s.books[k].status) == s.books[k]
    ensures forall k :: k in s.books && s.books[k].status == BookStatus.Overdue ==> r.books[k].status == BookStatus.Overdue
    ensures rec.dueAt < now ==> r.books[rec.bookId].status == BookStatus.Overdue
  {
    InsertNotifications(Marked(s, rec, now), Notices(s, rec, now), now)
  }

  /**
   * One pass as written, visiting the active records in `order`: it fails
   * when there is no active record, and otherwise applies the classification
   * to the record visited last only. Nothing but book statuses and new
   * notifications ever changes.
   */
  function ScanPass(s: Store, now: Time, order: seq<BorrowRecord>): (r: Result<Store, ScanError>)
    requires Valid(s) && IsVisitOrder(s.borrows, order)
    ensures r.Failure? <==> ActiveRecords(s) == []
    ensures r.Failure? ==> r.error == DueDateUnbound
    ensures r.Success? ==>
      && ClassifiedEffect(s, r.value, LastVisited(s, order), now)
      && r.value.nextNotificationId == s.nextNotificationId + NoticeCount(now, LastVisited(s, order).dueAt)
    ensures r.Success? ==>
      && Valid(r.value)
      && r.value.users == s.users && r.value.borrows == s.borrows && r.value.nextBorrowId == s.nextBorrowId
  {
    VisitOrderMembers(s, order);
    if order == [] then Failure(DueDateUnbound)
    else Success(ApplyOne(s, LastVisited(s, order), now))
  }

  /**
   * Nothing records that a notice went out, so a second pass at the same
   * time and in the same order repeats the first: it classifies the same
   * record the same way and adds the same notifications again.
   */
  lemma RescanRepeats(s: Store, now: Time, order: seq<BorrowRecord>)
    requires Valid(s) && IsVisitOrder(s.borrows, order) && order != []
    ensures ScanPass(s, now, order).Success?
    ensures var s1 := ScanPass(s, now, order).value;
      && ScanPass(s1, now, order).Success?
      && LastVisited(s1, order) == LastVisited(s, order)
      && Notices(s1, LastVisited(s1, order), now) == Notices(s, LastVisited(s, order), now)
  {
    VisitOrderMembers(s, order);
    var s1 := ScanPass(s, now, order).value;
    ActiveRecordsFrame(s, s1);
    var last := LastVisited(s, order);
    assert s1.books[last.bookId].title == s.books[last.bookId].title;
  }

  // ---- the loop ----

  /** What one tick of the loop did: a completed pass, or a pass whose exception was caught and logged. */
  datatype Tick = Ran | Raised(error: ScanError)

  /** One visit order per tick, each an arrangement of the active records of `s`. */
  ghost predicate VisitOrders(borrows: map<Id, BorrowRecord>, orders: seq<seq<BorrowRecord>>) {
    forall k :: 0 <= k < |orders| ==> IsVisitOrder(borrows, orders[k])
  }

  /** How a pass over `s` ends, whatever the order it visits the records in. */
  function TickOutcome(s: Store): Tick
    requires Valid(s)
  {
    if ActiveRecords(s) == [] then Raised(DueDateUnbound) else Ran
  }

  /**
   * One tick: the pass runs, and an exception it raises is caught and logged,
   * leaving the store as it was.
   */
  function OneTick(s: Store, now: Time, order: seq<BorrowRecord>): (r: (Store, Tick))
    requires Valid(s) && IsVisitOrder(s.borrows, order)
    ensures r.1 == TickOutcome(s)
    ensures r.1.Ran? ==> ScanPass(s, now, order) == Success(r.0)
    ensures r.1.Raised? ==> r.0 == s && ScanPass(s, now, order) == Failure(r.1.error)
    ensures r.1.Ran? ==> (order != [] &&
      r.0.nextNotificationId == s.nextNotificationId + NoticeCount(now, LastVisited(s, order).dueAt))
    ensures Valid(r.0) && r.0.users == s.users && r.0.borrows == s.borrows && r.0.nextBorrowId == s.nextBorrowId
  {
    VisitOrderMembers(s, order);
    match ScanPass(s, now, order)
    case Success(s1) => (s1, Ran)
    case Failure(e) => (s, Raised(e))
  }

  /**
   * The loop, one tick per reading of the clock, the k-th pass visiting the
   * records in `orders[k]`; the loop goes on whatever a tick did.
   */
  function SchedulerLoop(s: Store, clock: seq<Time>, orders: seq<seq<BorrowRecord>>): (r: (Store, seq<Tick>))
    requires Valid(s) && |orders| == |clock| && VisitOrders(s.borrows, orders)
    ensures |r.1| == |clock|
    ensures Valid(r.0)
    ensures r.0.users == s.users && r.0.borrows == s.borrows && r.0.nextBorrowId == s.nextBorrowId
    ensures ActiveRecords(s) == [] ==> r.0 == s
    decreases |clock|
  {
    if clock == [] then (s, [])
    else
      var (s1, tick) := OneTick(s, clock[0], orders[0]);
      assert VisitOrders(s.borrows, orders[1..]);
      var rest := SchedulerLoop(s1, clock[1..], orders[1..]);
      (rest.0, [tick] + rest.1)
  }

  /**
   * The passes never touch the borrow table, so every tick ends alike: all
   * raise when there is no active record, and all run otherwise.
   */
  lemma {:induction false} LoopTicksAlike(s: Store, clock: seq<Time>, orders: seq<seq<BorrowRecord>>)
    requires Valid(s) && |orders| == |clock| && VisitOrders(s.borrows, orders)
    ensures forall k :: 0 <= k < |clock| ==> SchedulerLoop(s, clock, orders).1[k] == TickOutcome(s)
    decreases |clock|
  {
    if clock != [] {
      LoopStep(s, clock, orders);
      var step := OneTick(s, clock[0], orders[0]);
      var s1 := step.0;
      ActiveRecordsFrame(s, s1);
      LoopTicksAlike(s1, clock[1..], orders[1..]);
      var ts := SchedulerLoop(s, clock, orders).1;
      var rest := SchedulerLoop(s1, clock[1..], orders[1..]).1;
      forall k | 0 <= k < |clock|
        ensures ts[k] == TickOutcome(s)
      {
        if k > 0 {
          assert ts[k] == rest[k - 1];
        }
      }
    }
  }

  /** The times the loop wakes at: a pass takes no time, then the loop sleeps `interval` seconds. */
  function Ticks(start: Time, interval: nat, n: nat): (ts: seq<Time>)
    ensures |ts| == n
    ensures forall k :: 0 <= k < n ==> ts[k] == start + k * interval
  {
    if n == 0 then [] else Ticks(start, interval, n - 1) + [start + (n - 1) * interval]
  }

  /** The first `n` ticks of the loop started at `start`, by default hourly. */
  function SchedulerRun(s: Store, start: Time, n: nat, orders: seq<seq<BorrowRecord>>,
                        interval: nat := CheckInterval): (r: (Store, seq<Tick>))
    requires Valid(s) && |orders| == n && VisitOrders(s.borrows, orders)
    ensures |r.1| == n && Valid(r.0)
  {
    SchedulerLoop(s, Ticks(start, interval, n), orders)
  }

  /** The loop's first tick, then the loop over the remaining clock readings. */
  lemma LoopStep(s: Store, clock: seq<Time>, orders: seq<seq<BorrowRecord>>)
    requires Valid(s) && |orders| == |clock| && VisitOrders(s.borrows, orders) && clock != []
    ensures var step := OneTick(s, clock[0], orders[0]);
      && VisitOrders(step.0.borrows, orders[1..])
      && SchedulerLoop(s, clock, orders) ==
         (SchedulerLoop(step.0, clock[1..], orders[1..]).0, [step.1] + SchedulerLoop(step.0, clock[1..], orders[1..]).1)
  {
    assert VisitOrders(s.borrows, orders[1..]);
  }

  /** Every record of `recs` is due before `now`. */
  predicate AllDueBefore(recs: seq<BorrowRecord>, now: Time) {
    forall x :: x in recs ==> x.dueAt < now
  }

  /** A tick at which every active record is past due adds two notifications. */
  lemma OverdueTick(s: Store, now: Time, order: seq<BorrowRecord>)
    requires Valid(s) && IsVisitOrder(s.borrows, order) && ActiveRecords(s) != []
    requires AllDueBefore(ActiveRecords(s), now)
    ensures OneTick(s, now, order).0.nextNotificationId == s.nextNotificationId + 2
  {
    VisitOrderMembers(s, order);
    var last := LastVisited(s, order);
    assert last in ActiveRecords(s);
  }

  /**
   * When every active record is past due at every tick, each tick adds two
   * more notifications, whatever record it picks: the overdue notice repeats
   * every hour.
   */
  lemma {:induction false} OverdueRepeatsEveryTick(s: Store, clock: seq<Time>, orders: seq<seq<BorrowRecord>>)
    requires Valid(s) && |orders| == |clock| && VisitOrders(s.borrows, orders) && ActiveRecords(s) != []
    requires forall k :: 0 <= k < |clock| ==> AllDueBefore(ActiveRecords(s), clock[k])
    ensures SchedulerLoop(s, clock, orders).0.nextNotificationId == s.nextNotificationId + 2 * |clock|
    decreases |clock|
  {
    if clock != [] {
      LoopStep(s, clock, orders);
      OverdueTick(s, clock[0], orders[0]);
      var s1 := OneTick(s, clock[0], orders[0]).0;
      ActiveRecordsFrame(s, s1);
      forall k | 0 <= k < |clock[1..]|
        ensures AllDueBefore(ActiveRecords(s1), clock[1..][k])
      {
        assert clock[1..][k] == clock[k + 1];
      }
      OverdueRepeatsEveryTick(s1, clock[1..], orders[1..]);
    }
  }

  // ---- the evidently intended pass ----

  /** Notifications added by classifying each of `recs`. */
  function TotalNotices(recs: seq<BorrowRecord>, now: Time): nat {
    if recs == [] then 0 else NoticeCount(now, recs[0].dueAt) + TotalNotices(recs[1..], now)
  }

  /** When every record is past due, classifying them all adds two notices per record. */
  lemma {:induction false} PastDueNotices(recs: seq<BorrowRecord>, now: Time)
    requires AllDueBefore(recs, now)
    ensures TotalNotices(recs, now) == 2 * |recs|
    decreases |recs|
  {
    if recs != [] {
      assert recs[0] in recs;
      assert AllDueBefore(recs[1..], now) by {
        forall x | x in recs[1..] ensures x.dueAt < now {
          assert x in recs;
        }
      }
      PastDueNotices(recs[1..], now);
    }
  }

  /** The notifications classifying each of `recs` in turn creates, in that order. */
  function AllNotices(s: Store, recs: seq<BorrowRecord>, now: Time): (ns: seq<Notice>)
    requires forall x :: x in recs ==> x.bookId in s.books && x.userId in s.users
    ensures |ns| == TotalNotices(recs, now)
    decreases |recs|
  {
    if recs == [] then []
    else
      assert recs[0] in recs;
      assert forall x :: x in recs[1..] ==> x in recs;
      Notices(s, recs[0], now) + AllNotices(s, recs[1..], now)
  }

  /** The notifications depend only on the users and the book titles. */
  lemma {:induction false} AllNoticesFrame(s: Store, t: Store, recs: seq<BorrowRecord>, now: Time)
    requires forall x :: x in recs ==> x.bookId in s.books && x.userId in s.users
    requires t.users == s.users && t.books.Keys == s.books.Keys
    requires forall k :: k in s.books ==> t.books[k].title == s.books[k].title
    ensures AllNotices(t, recs, now) == AllNotices(s, recs, now)
    decreases |recs|
  {
    if recs != [] {
      assert recs[0] in recs;
      assert forall x :: x in recs[1..] ==> x in recs;
      AllNoticesFrame(s, t, recs[1..], now);
    }
  }

  /** Some record of `recs` for book `k` is past due. */
  ghost predicate MarkedBy(recs: seq<BorrowRecord>, k: Id, now: Time) {
    exists x :: x in recs && x.bookId == k && x.dueAt < now
  }

  /**
   * Classifies each record of `recs` in turn: the books some past-due record
   * refers to become Overdue, every other book keeps its row, and the
   * notifications of every record are added in the order of `recs`.
   */
  function ApplyEach(s: Store, recs: seq<BorrowRecord>, now: Time): (r: Store)
    requires Valid(s)
    requires forall x :: x in recs ==> x.bookId in s.books && x.userId in s.users
    ensures Valid(r)
    ensures r.users == s.users && r.borrows == s.borrows
    ensures r.nextBorrowId == s.nextBorrowId && r.books.Keys == s.books.Keys
    ensures r.nextNotificationId == s.nextNotificationId + TotalNotices(recs, now)
    ensures forall k :: k in s.books ==>
      r.books[k] == if MarkedBy(recs, k, now) then s.books[k].(status := BookStatus.Overdue) else s.books[k]
    ensures AddsNotifications(s.(books := r.books), r, AllNotices(s, recs, now), now)
    decreases |recs|
  {
    if recs == [] then s
    else
      var s1 := ApplyOne(s, recs[0], now);
      assert recs[0] in recs;
      assert forall x :: x in recs[1..] ==> x in recs;
      var r := ApplyEach(s1, recs[1..], now);
      ApplyEachStep(s, s1, r, recs, now);
      r
  }

  /** How one classification and the rest of the records make up `ApplyEach`. */
  lemma ApplyEachStep(s: Store, s1: Store, r: Store, recs: seq<BorrowRecord>, now: Time)
    requires Valid(s) && recs != []
    requires forall x :: x in recs ==> x.bookId in s.books && x.userId in s.users
    requires s1 == ApplyOne(s, recs[0], now)
    requires forall x :: x in recs[1..] ==> x.bookId in s1.books && x.userId in s1.users
    requires r.books.Keys == s1.books.Keys
    requires forall k :: k in s1.books ==>
      r.books[k] == if MarkedBy(recs[1..], k, now) then s1.books[k].(status := BookStatus.Overdue) else s1.books[k]
    requires AddsNotifications(s1.(books := r.books), r, AllNotices(s1, recs[1..], now), now)
    ensures forall k :: k in s.books ==>
      r.books[k] == if MarkedBy(recs, k, now) then s.books[k].(status := BookStatus.Overdue) else s.books[k]
    ensures AddsNotifications(s.(books := r.books), r, AllNotices(s, recs, now), now)
  {
    ApplyEachNotices(s, s1, r, recs, now);
    forall k | k in s.books
      ensures r.books[k] == if MarkedBy(recs, k, now) then s.books[k].(status := BookStatus.Overdue) else s.books[k]
    {
      MarkedByCons(recs, k, now);
    }
  }

  /** The notifications half of `ApplyEachStep`. */
  lemma ApplyEachNotices(s: Store, s1: Store, r: Store, recs: seq<BorrowRecord>, now: Time)
    requires Valid(s) && recs != []
    requires forall x :: x in recs ==> x.bookId in s.books && x.userId in s.users
    requires s1 == ApplyOne(s, recs[0], now)
    requires forall x :: x in recs[1..] ==> x.bookId in s1.books && x.userId in s1.users
    requires AddsNotifications(s1.(books := r.books), r, AllNotices(s1, recs[1..], now), now)
    ensures AddsNotifications(s.(books := r.books), r, AllNotices(s, recs, now), now)
  {
    var m := Marked(s, recs[0], now);
    var first := Notices(s, recs[0], now);
    assert AddsNotifications(m, s1, first, now);
    AddsNotificationsRebook(m, s1, first, now, r.books);
    assert m.(books := r.books) == s.(books := r.books);
    assert forall x :: x in recs[1..] ==> x in recs;
    AllNoticesFrame(s, s1, recs[1..], now);
    AddsNotificationsCompose(s.(books := r.books), s1.(books := r.books), r,
      first, AllNotices(s, recs[1..], now), now);
    assert AllNotices(s, recs, now) == first + AllNotices(s, recs[1..], now);
  }

  /** A book is marked by `recs` iff the first record marks it or the rest do. */
  lemma MarkedByCons(recs: seq<BorrowRecord>, k: Id, now: Time)
    requires recs != []
    ensures MarkedBy(recs, k, now) <==>
      (recs[0].bookId == k && recs[0].dueAt < now) || MarkedBy(recs[1..], k, now)
  {
    if MarkedBy(recs, k, now) {
      var x :| x in recs && x.bookId == k && x.dueAt < now;
      if x != recs[0] {
        var i :| 0 <= i < |recs| && recs[i] == x;
        assert recs[1..][i - 1] == x;
      }
    }
    if MarkedBy(recs[1..], k, now) {
      var x :| x in recs[1..] && x.bookId == k && x.dueAt < now;
      assert x in recs;
    }
  }

  /** Some active record of `s` for book `k` is past due. */
  ghost predicate HasPastDueLoan(s: Store, k: Id, now: Time) {
    exists x :: InTable(s.borrows, x) && IsActive(x) && x.bookId == k && x.dueAt < now
  }

  /**
   * The corrected pass: every active record is classified, and a store with
   * no active record is left as it is instead of raising. Exactly the books
   * with a past-due active loan become Overdue, and the notifications of
   * every record are added in the visiting order.
   */
  function ScanEachActive(s: Store, now: Time, order: seq<BorrowRecord>): (r: Store)
    requires Valid(s) && IsVisitOrder(s.borrows, order)
    ensures ActiveRecords(s) == [] ==> r == s
    ensures Valid(r) && r.users == s.users && r.borrows == s.borrows
    ensures r.nextNotificationId == s.nextNotificationId + TotalNotices(order, now)
    ensures r.books.Keys == s.books.Keys
    ensures forall k :: k in s.books ==>
      r.books[k] == if HasPastDueLoan(s, k, now) then s.books[k].(status := BookStatus.Overdue) else s.books[k]
    ensures AddsNotifications(s.(books := r.books), r, AllNotices(s, order, now), now)
  {
    VisitOrderMembers(s, order);
    MarkedByVisitOrder(s, order, now);
    ApplyEach(s, order, now)
  }

  /** A visiting order marks a book iff the book has a past-due active loan. */
  lemma MarkedByVisitOrder(s: Store, order: seq<BorrowRecord>, now: Time)
    requires Valid(s) && IsVisitOrder(s.borrows, order)
    ensures forall k :: MarkedBy(order, k, now) <==> HasPastDueLoan(s, k, now)
  {
    VisitOrderMembers(s, order);
    forall k
      ensures MarkedBy(order, k, now) <==> HasPastDueLoan(s, k, now)
    {
      if HasPastDueLoan(s, k, now) {
        var x :| InTable(s.borrows, x) && IsActive(x) && x.bookId == k && x.dueAt < now;
        assert x in order;
      }
    }
  }

  /** When every active record is past due, the corrected pass sends two notices per record. */
  lemma PastDueScan(s: Store, now: Time, order: seq<BorrowRecord>)
    requires Valid(s) && IsVisitOrder(s.borrows, order) && AllDueBefore(order, now)
    ensures ScanEachActive(s, now, order).nextNotificationId == s.nextNotificationId + 2 * |order|
  {
    PastDueNotices(order, now);
  }

  // ---- where the pass as written and the intended pass part ----

  /** The first and the second loan of `TwoLoans`, both due at time 0. */
  const FirstLoan := BorrowRecord(1, 2, 1, 0, 0, None, None, false)
  const SecondLoan := BorrowRecord(2, 2, 2, 0, 0, None, None, false)

  /** The borrow table of `TwoLoans`. */
  const TwoLoansTable: map<Id, BorrowRecord> := map[1 := FirstLoan, 2 := SecondLoan]

  /** The rows of `TwoLoans` other than its borrow records. */
  const TwoLoansUsers: map<Id, User> := map[
    1 := User(1, "Ann", "ann@example.org", "h1", Author, 0, None, None, Websocket),
    2 := User(2, "Ben", "ben@example.org", "h2", Member, 0, None, None, Websocket)]
  const TwoLoansBooks: map<Id, Book> := map[
    1 := Book(1, None, "First", None, 0, Borrowed, 0, 1),
    2 := Book(2, None, "Second", None, 0, Borrowed, 0, 1)]

  /** The store of `TwoLoans`, before its integrity is established. */
  const TwoLoansStore: Store := Store(TwoLoansUsers, TwoLoansBooks, TwoLoansTable, map[], 3, 3, 3, 1)

  lemma TwoLoansKeyed()
    ensures Keyed(TwoLoansStore)
  {
  }

  lemma TwoLoansResolve()
    ensures ReferencesResolve(TwoLoansStore)
  {
  }

  lemma TwoLoansUnique()
    ensures EmailsUnique(TwoLoansUsers) && IsbnsUnique(TwoLoansBooks)
  {
    assert TwoLoansUsers[1].email != TwoLoansUsers[2].email by {
      assert TwoLoansUsers[1].email[0] == 'a' && TwoLoansUsers[2].email[0] == 'b';
    }
  }

  lemma TwoLoansFit()
    ensures ColumnsFit(TwoLoansStore)
  {
  }

  /** An author (user 1) and a member (user 2) who holds two loans, both due at time 0. */
  function TwoLoans(): (s: Store)
    ensures Valid(s) && s.borrows == TwoLoansTable
  {
    TwoLoansKeyed();
    TwoLoansResolve();
    TwoLoansUnique();
    TwoLoansFit();
    TwoLoansStore
  }

  /** The two loans can be visited in either order, and in no other way. */
  lemma TwoLoansOrders(order: seq<BorrowRecord>)
    requires IsVisitOrder(TwoLoansTable, order)
    ensures order == [FirstLoan, SecondLoan] || order == [SecondLoan, FirstLoan]
  {
    assert TwoLoansTable[1] == FirstLoan && TwoLoansTable[2] == SecondLoan;
    assert InTable(TwoLoansTable, FirstLoan) && InTable(TwoLoansTable, SecondLoan);
    assert multiset(order)[FirstLoan] == 1 && multiset(order)[SecondLoan] == 1;
    assert multiset(order) == multiset{FirstLoan, SecondLoan} by {
      forall x
        ensures multiset(order)[x] == multiset{FirstLoan, SecondLoan}[x]
      {
        if x != FirstLoan && x != SecondLoan {
          assert !InTable(TwoLoansTable, x);
        }
      }
    }
    assert |order| == 2 by {
      assert |multiset(order)| == |multiset{FirstLoan, SecondLoan}|;
    }
    assert order == [order[0], order[1]];
    assert multiset{order[0], order[1]} == multiset{FirstLoan, SecondLoan};
    assert order[0] in multiset{FirstLoan, SecondLoan};
  }

  /**
   * With two past-due loans, the pass as written marks only the book of the
   * loan it visits last and sends only that loan's two notices; the other
   * loan's book stays Borrowed, whichever order the records come in. The
   * intended pass handles both loans.
   */
  lemma AsWrittenMissesEarlierLoans(now: Time, order: seq<BorrowRecord>)
    requires now > 0 && IsVisitOrder(TwoLoans().borrows, order)
    ensures ScanPass(TwoLoans(), now, order).Success?
    ensures var r := ScanPass(TwoLoans(), now, order).value;
      (r.books[1].status == Borrowed && r.books[2].status == BookStatus.Overdue) ||
      (r.books[1].status == BookStatus.Overdue && r.books[2].status == Borrowed)
    ensures ScanPass(TwoLoans(), now, order).value.nextNotificationId == 3
    ensures ScanEachActive(TwoLoans(), now, order).books[1].status == BookStatus.Overdue
    ensures ScanEachActive(TwoLoans(), now, order).books[2].status == BookStatus.Overdue
    ensures ScanEachActive(TwoLoans(), now, order).nextNotificationId == 5
  {
    TwoLoansOrders(order);
    AsWrittenMarksLast(now, order);
    IntendedMarksBoth(now, order);
    IntendedSendsFour(now, order);
  }

  /** The pass as written over `TwoLoans` marks the book of the loan visited last, and only it. */
  lemma AsWrittenMarksLast(now: Time, order: seq<BorrowRecord>)
    requires now > 0 && IsVisitOrder(TwoLoans().borrows, order)
    requires order == [FirstLoan, SecondLoan] || order == [SecondLoan, FirstLoan]
    ensures ScanPass(TwoLoans(), now, order).Success?
    ensures var r := ScanPass(TwoLoans(), now, order).value;
      && r.books[order[1].bookId].status == BookStatus.Overdue
      && r.books[order[0].bookId].status == Borrowed
      && r.nextNotificationId == 3
  {
    var s := TwoLoans();
    assert order != [];
    assert LastVisited(s, order) == order[1];
    assert NoticeCount(now, 0) == 2;
  }

  /** The intended pass over `TwoLoans` marks both books. */
  lemma IntendedMarksBoth(now: Time, order: seq<BorrowRecord>)
    requires now > 0 && IsVisitOrder(TwoLoansTable, order)
    ensures var r := ScanEachActive(TwoLoans(), now, order);
      r.books[1].status == BookStatus.Overdue && r.books[2].status == BookStatus.Overdue
  {
    var s := TwoLoans();
    assert s.borrows[1] == FirstLoan && s.borrows[2] == SecondLoan;
    assert HasPastDueLoan(s, 1, now) by {
      assert InTable(s.borrows, FirstLoan) && IsActive(FirstLoan);
    }
    assert HasPastDueLoan(s, 2, now) by {
      assert InTable(s.borrows, SecondLoan) && IsActive(SecondLoan);
    }
  }

  /** The intended pass over `TwoLoans` sends both loans' notices, four in all. */
  lemma IntendedSendsFour(now: Time, order: seq<BorrowRecord>)
    requires now > 0 && IsVisitOrder(TwoLoansTable, order)
    requires order == [FirstLoan, SecondLoan] || order == [SecondLoan, FirstLoan]
    ensures ScanEachActive(TwoLoans(), now, order).nextNotificationId == 5
  {
    assert AllDueBefore(order, now);
    PastDueScan(TwoLoans(), now, order);
  }

  /** With no active loan the pass as written raises, while the intended pass changes nothing. */
  lemma AsWrittenRaisesWithoutLoans(now: Time)
    ensures IsVisitOrder(EmptyStore().borrows, [])
    ensures ScanPass(EmptyStore(), now, []) == Failure(DueDateUnbound)
    ensures ScanEachActive(EmptyStore(), now, []) == EmptyStore()
  {
    assert AllBorrows(EmptyStore()) == [];
  }
}
