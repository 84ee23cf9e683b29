/** The notification inbox: mark one notification read, mark all read, and the unread
    counter that drives the badge and the "mark all" button. */
module Notifications {
  import Seqs

  datatype NotificationType = COMMENT | LIKE | REPLY | SYSTEM

  datatype Notification = Notification(
    id: string,
    kind: NotificationType,
    message: string,
    isRead: bool,
    createdAt: string)

  /** `handleMarkAsRead(id)`: the list with the notifications carrying `id` read. */
  function MarkAsRead(ns: seq<Notification>, id: string): seq<Notification>
  {
    seq(|ns|, k requires 0 <= k < |ns| => if ns[k].id == id then ns[k].(isRead := true) else ns[k])
  }

  /** `handleMarkAllAsRead()`: the list with every notification read. */
  function MarkAllAsRead(ns: seq<Notification>): seq<Notification>
  {
    seq(|ns|, k requires 0 <= k < |ns| => ns[k].(isRead := true))
  }

  /** `unreadCount`: the length of the list filtered to unread notifications. */
  function UnreadCount(ns: seq<Notification>): nat
  {
    |Seqs.Filter(ns, (n: Notification) => !n.isRead)|
  }

  /** The "mark all read" button and the unread badge are rendered. */
  predicate MarkAllOffered(ns: seq<Notification>)
  {
    UnreadCount(ns) > 0
  }

  // ---- properties ----

  /** Marking one notification read sets `isRead` on the matching ones and changes no
      other field and no other notification. */
  lemma MarkAsReadChangesOnlyMatching(ns: seq<Notification>, id: string)
    ensures var r := MarkAsRead(ns, id);
      && |r| == |ns|
      && (forall k :: 0 <= k < |ns| && ns[k].id == id ==> r[k].isRead && r[k].(isRead := ns[k].isRead) == ns[k])
      && (forall k :: 0 <= k < |ns| && ns[k].id != id ==> r[k] == ns[k])
  {
  }

  /** Marking the same notification read twice is the same as doing it once. */
  lemma MarkAsReadIdempotent(ns: seq<Notification>, id: string)
    ensures MarkAsRead(MarkAsRead(ns, id), id) == MarkAsRead(ns, id)
  {
  }

  /** Mark-all reads every notification and keeps the list's length, order and content. */
  lemma MarkAllReadsEverything(ns: seq<Notification>)
    ensures var r := MarkAllAsRead(ns);
      && |r| == |ns|
      && (forall k :: 0 <= k < |ns| ==> r[k].isRead && r[k].(isRead := ns[k].isRead) == ns[k])
  {
  }

  /** The counter is the number of unread notifications, so it is zero exactly when every
      notification is read. */
  lemma UnreadCountCountsUnread(ns: seq<Notification>)
    ensures UnreadCount(ns) == Seqs.Count(ns, (n: Notification) => !n.isRead)
    ensures UnreadCount(ns) == 0 <==> forall k :: 0 <= k < |ns| ==> ns[k].isRead
    ensures UnreadCount(ns) <= |ns|
  {
    Seqs.CountIsFilterLength(ns, (n: Notification) => !n.isRead);
  }

  /** After mark-all the counter is zero, so neither the badge nor the button is shown. */
  lemma MarkAllClearsCounter(ns: seq<Notification>)
    ensures UnreadCount(MarkAllAsRead(ns)) == 0
    ensures !MarkAllOffered(MarkAllAsRead(ns))
  {
    UnreadCountCountsUnread(MarkAllAsRead(ns));
  }

  /** Marking one notification read lowers the counter by exactly the number of unread
      notifications carrying that id, and so never raises it. */
  lemma MarkAsReadLowersCounter(ns: seq<Notification>, id: string)
    ensures UnreadCount(MarkAsRead(ns, id))
         == UnreadCount(ns) - Seqs.Count(ns, (n: Notification) => !n.isRead && n.id == id)
    ensures UnreadCount(MarkAsRead(ns, id)) <= UnreadCount(ns)
  {
    var r := MarkAsRead(ns, id);
    var unread := (n: Notification) => !n.isRead;
    var matching := (n: Notification) => n.id == id;
    UnreadCountCountsUnread(ns);
    UnreadCountCountsUnread(r);
    Seqs.CountAfterPointwise(ns, r, unread, matching, (n: Notification) => !n.isRead && n.id == id);
  }

  /** Marking an unread notification read lowers the counter. */
  lemma MarkAsReadOfUnreadLowersCounter(ns: seq<Notification>, id: string, k: nat)
    requires k < |ns| && ns[k].id == id && !ns[k].isRead
    ensures UnreadCount(MarkAsRead(ns, id)) < UnreadCount(ns)
  {
    MarkAsReadLowersCounter(ns, id);
    var p := (n: Notification) => !n.isRead && n.id == id;
    assert p(ns[k]);
  }
}
