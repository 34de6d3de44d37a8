/**
 * Creating a notification and pushing it to the recipient's live
 * connections. The row is stored (and its id assigned) before the push is
 * attempted; a notification tied to no user is stored but pushed nowhere.
 */
module NotifyService {
  import opened Outcomes
  import opened Models
  import opened Registry

  /** The `data` part of a push message. */
  datatype PushData = PushData(id: Id, message: Message, isRead: bool, createdAt: Time)

  /** A push message; `kind` is its `type` field. */
  datatype Payload = Payload(kind: string, data: PushData)

  /** The observable steps of one call, in order. */
  datatype Effect =
    | Persisted(id: Id)
    | Pushed(userId: Id, payload: Payload, attempted: set<ConnId>)

  /** The push message announcing a stored notification. */
  function PayloadFor(n: Notification): (p: Payload)
    ensures p.kind == "notification"
    ensures p.data.id == n.id && p.data.message == n.message
    ensures p.data.isRead == n.isRead && p.data.createdAt == n.createdAt
  {
    Payload("notification", PushData(n.id, n.message, n.isRead, n.createdAt))
  }

  /**
   * Stores a new notification for `userId` (or for no user) and, when there
   * is a user, pushes it to that user's connections. A user id that names no
   * user makes the insert fail on its foreign key: nothing is stored or pushed,
   * but the notification id the insert drew is used up.
   * `failed` is the oracle for which connection sends raise.
   */
  method CreateNotificationAndPush(s: Store, reg: Connections, userId: Option<Id>, message: Message,
                                   now: Time, failed: set<ConnId>)
    returns (s': Store, reg': Connections, r: Response<Notification>, effects: seq<Effect>)
    requires Valid(s)
    ensures userId.Some? && userId.value !in s.users ==>
      && r == Failure(InternalError) && reg' == reg && effects == []
      && s' == s.(nextNotificationId := s.nextNotificationId + 1)
    ensures r.Success? <==> userId.None? || userId.value in s.users
    ensures r.Success? ==>
      && AddsNotifications(s, s', [(userId, message)], now)
      && Valid(s')
      && r.value == s'.notifications[s.nextNotificationId]
      && r.value.userId == userId && r.value.message == message
      && !r.value.isRead && r.value.createdAt == now && r.value.kind == NotificationType.Reminder
    ensures r.Success? ==> |effects| >= 1 && effects[0] == Persisted(r.value.id)
    ensures r.Success? ==> (|effects| == 2 <==> userId.Some?) && |effects| <= 2
    ensures r.Success? && userId.None? ==> reg' == reg
    ensures r.Success? && userId.Some? ==>
      && effects[1].Pushed?
      && effects[1].userId == userId.value
      && effects[1].payload == PayloadFor(r.value)
      && effects[1].attempted == (if userId.value in reg then reg[userId.value] else {})
      && OthersUnchanged(reg, reg', userId.value)
    ensures r.Success? && userId.Some? && (userId.value !in reg || reg[userId.value] == {}) ==> reg' == reg
    ensures r.Success? && userId.Some? && userId.value in reg && reg[userId.value] != {} ==>
      && (userId.value in reg' <==> reg[userId.value] - failed != {})
      && (userId.value in reg' ==> reg'[userId.value] == reg[userId.value] - failed)
    ensures Valid(s')
    ensures NoEmptyEntries(reg) ==> NoEmptyEntries(reg')
  {
    if userId.Some? && userId.value !in s.users {
      return s.(nextNotificationId := s.nextNotificationId + 1), reg, Failure(InternalError), [];
    }
    var inserted := InsertNotification(s, userId, message, now);
    s' := inserted.0;
    var n := inserted.1;
    r := Success(n);
    effects := [Persisted(n.id)];
    reg' := reg;
    if userId.Some? {
      var attempted;
      reg', attempted := SendToUser(reg, userId.value, PayloadFor(n), failed);
      effects := effects + [Pushed(userId.value, PayloadFor(n), attempted)];
    }
  }
}
