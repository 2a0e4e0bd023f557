/** The calls the handlers make into UserPersistence.js, which is not part
    of this model: each is given the plain effect on the User table that its
    name and its callers imply, and nothing more. */
module UserPersistence {
  import opened Tables

  /** get_user: the record, or None where the source gets null. */
  method GetUser(db: Store, userId: string) returns (r: Option<User>)
    ensures r.Some? <==> userId in db.users
    ensures r.Some? ==> r.value == db.users[userId]
  {
    r := if userId in db.users then Some(db.users[userId]) else None;
  }

  /** get_room_id: the user's room_id, None (undefined) when the user or the
      attribute is missing. */
  method GetRoomId(db: Store, userId: string) returns (r: Option<string>)
    ensures r == if userId in db.users then db.users[userId].roomId else None
  {
    r := if userId in db.users then db.users[userId].roomId else None;
  }

  /** remove_room_id: clears the user's room_id. */
  method RemoveRoomId(db: Store, roomId: string, userId: string)
    modifies db`users
    ensures db.users == if userId in old(db.users)
      then old(db.users)[userId := old(db.users)[userId].(roomId := None)]
      else old(db.users)
  {
    if userId in db.users {
      db.users := db.users[userId := db.users[userId].(roomId := None)];
    }
  }

  /** get_notification: the user's set of notification ids. */
  method GetNotification(db: Store, userId: string) returns (r: set<string>)
    ensures r == if userId in db.users then db.users[userId].notifications else {}
  {
    r := if userId in db.users then db.users[userId].notifications else {};
  }

  /** update_notification_set: removes one id from the user's set. */
  method UpdateNotificationSet(db: Store, notifId: string, userId: string)
    modifies db`users
    ensures db.users == if userId in old(db.users)
      then old(db.users)[userId := old(db.users)[userId].(notifications := old(db.users)[userId].notifications - {notifId})]
      else old(db.users)
  {
    if userId in db.users {
      db.users := db.users[userId := db.users[userId].(notifications := db.users[userId].notifications - {notifId})];
    }
  }
}
