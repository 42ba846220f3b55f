/** The notification store of src/store/useNotificationStore.ts: a list of
    notifications, newest first, with operations to add one, mark the ones
    with an id as read, and clear the list. The random id and the clock
    reading the source attaches to a new notification are parameters here. */
module NotificationStore {

  /** The three kinds of notification (src/types/index.ts:20). */
  datatype Kind = Reminder | Alert | Update

  datatype Notification = Notification(id: string, kind: Kind, message: string, timestamp: string, read: bool)

  /** The list after `markAsRead(id)` (src/store/useNotificationStore.ts:24-28):
      every notification with the id is read, everything else as it was. */
  function MarkRead(notifications: seq<Notification>, id: string): (marked: seq<Notification>)
    ensures |marked| == |notifications|
    ensures forall k :: 0 <= k < |notifications| ==>
              marked[k] == if notifications[k].id == id then notifications[k].(read := true) else notifications[k]
  {
    seq(|notifications|, k requires 0 <= k < |notifications| =>
      if notifications[k].id == id then notifications[k].(read := true) else notifications[k])
  }

  /** The number of unread notifications. */
  function UnreadCount(notifications: seq<Notification>): nat
    decreases |notifications|
  {
    if |notifications| == 0 then 0
    else (if notifications[0].read then 0 else 1) + UnreadCount(notifications[1..])
  }

  /** Marking twice is marking once. */
  lemma MarkReadIdempotent(notifications: seq<Notification>, id: string)
    ensures MarkRead(MarkRead(notifications, id), id) == MarkRead(notifications, id)
  {
  }

  /** After marking, no notification with the id is unread. */
  lemma MarkedAreRead(notifications: seq<Notification>, id: string)
    ensures forall n :: n in MarkRead(notifications, id) && n.id == id ==> n.read
  {
  }

  /** Marking never adds an unread notification, and it removes exactly the
      unread ones with the id. */
  lemma {:induction false} MarkReadUnreadCount(notifications: seq<Notification>, id: string)
    ensures UnreadCount(MarkRead(notifications, id)) <= UnreadCount(notifications)
    ensures UnreadCount(MarkRead(notifications, id)) == UnreadCount(notifications) - UnreadWithId(notifications, id)
    decreases |notifications|
  {
    if |notifications| > 0 {
      MarkReadUnreadCount(notifications[1..], id);
      assert MarkRead(notifications, id)[1..] == MarkRead(notifications[1..], id);
    }
  }

  /** The number of unread notifications with the id. */
  function UnreadWithId(notifications: seq<Notification>, id: string): (count: nat)
    ensures count <= UnreadCount(notifications)
    decreases |notifications|
  {
    if |notifications| == 0 then 0
    else (if !notifications[0].read && notifications[0].id == id then 1 else 0) + UnreadWithId(notifications[1..], id)
  }

  /** Marking an id that no notification has changes nothing. */
  lemma MarkAbsentId(notifications: seq<Notification>, id: string)
    requires forall n :: n in notifications ==> n.id != id
    ensures MarkRead(notifications, id) == notifications
  {
    assert forall k :: 0 <= k < |notifications| ==> notifications[k] in notifications;
  }

  /** The store (src/store/useNotificationStore.ts:11-30). */
  class Store {
    var notifications: seq<Notification>

    /** The store starts empty (line 12). */
    constructor()
      ensures notifications == []
    {
      notifications := [];
    }

    /** `addNotification` (lines 13-23): the new notification, unread, goes
        in front of the others. */
    method AddNotification(kind: Kind, message: string, id: string, timestamp: string)
      modifies this
      ensures notifications == [Notification(id, kind, message, timestamp, false)] + old(notifications)
      ensures |notifications| == |old(notifications)| + 1 && notifications[1..] == old(notifications)
      ensures UnreadCount(notifications) == UnreadCount(old(notifications)) + 1
    {
      notifications := [Notification(id, kind, message, timestamp, false)] + notifications;
      assert notifications[1..] == old(notifications);
    }

    /** `markAsRead` (lines 24-28). */
    method MarkAsRead(id: string)
      modifies this
      ensures notifications == MarkRead(old(notifications), id)
      ensures UnreadCount(notifications) <= UnreadCount(old(notifications))
    {
      MarkReadUnreadCount(notifications, id);
      notifications := MarkRead(notifications, id);
    }

    /** `clearAll` (line 29). */
    method ClearAll()
      modifies this
      ensures notifications == []
      ensures UnreadCount(notifications) == 0
    {
      notifications := [];
    }
  }
}
