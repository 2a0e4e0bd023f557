/** The calls the handlers make into NotificationPersistence.js, which is
    not part of this model: each is given the plain effect on the
    Notification table that its name and its callers imply. */
module NotificationPersistence {
  import opened Tables

  /** What get_msg_type shows of a notification: who sent it and what it
      says, and None for a missing record. */
  function Rendering(notifs: map<string, Notification>, notifId: string): Option<Rendered> {
    if notifId in notifs then Some(Rendered(notifs[notifId].from, notifs[notifId].message)) else None
  }

  /** update_notification_status: marks the notification read. */
  method UpdateNotificationStatus(db: Store, notifId: string)
    modifies db`notifs
    ensures db.notifs == if notifId in old(db.notifs)
      then old(db.notifs)[notifId := old(db.notifs)[notifId].(read := true)]
      else old(db.notifs)
  {
    if notifId in db.notifs {
      db.notifs := db.notifs[notifId := db.notifs[notifId].(read := true)];
    }
  }

  /** get_msg_type */
  method GetMsgType(db: Store, notifId: string) returns (r: Option<Rendered>)
    ensures r == Rendering(db.notifs, notifId)
  {
    r := Rendering(db.notifs, notifId);
  }

  /** delete_notification: removes the record. */
  method DeleteNotification(db: Store, notifId: string)
    modifies db`notifs
    ensures db.notifs == old(db.notifs) - {notifId}
  {
    db.notifs := db.notifs - {notifId};
  }
}
