/** UserInfoHandler.js: the user-facing requests about a user's room and
    notifications. Each request normalises the id it carries, validates it,
    then runs its reads and writes one after another and answers with a
    status code. */
module UserInfoHandler {
  import opened Tables
  import opened Http
  import opened Invariants
  import Text
  import RoomPersistence
  import UserPersistence
  import NotificationPersistence

  const InvalidUsername := "This username is invalid"
  const InvalidUserId := "Error Creating User- User id is invalid"
  const InvalidNotificationId := "This notification id is invalid"
  const UserNotFound := "User not found"
  const RoomDeletedOnLeave := "The room is being deleted and user leave the room successfully"
  const LeftRoom := "User leave the room successfully"
  const WarnRoomDeleted := "Warning: If you leave, the room will be deleted!"
  const WarnLeave := "Warning: Are you sure want to leave this room!"
  const NoRoommate := "You have no roommate"
  const SomeRoommate := "You have at least one roommate"
  const NotificationDeleted := "Notification deleted successfully"
  const NotificationNotFound := "Notification not found"

  /** The 500 answer carrying error.message. */
  function Thrown500(e: Error): Response {
    Response(500, Message(ErrorMessage(e)))
  }

  /** #is_valid_id: only the empty string is invalid. */
  predicate IsValidId(userId: string) {
    |userId| != 0
  }

  /** Ids are trimmed and lower-cased before #is_valid_id sees them, so a
      request id is refused exactly when it holds nothing but white space. */
  lemma NormalizedIdValid(rawId: string)
    ensures IsValidId(Text.TrimLower(rawId)) <==> exists i :: 0 <= i < |rawId| && !Text.IsSpace(rawId[i])
  {
    Text.TrimLowerEmpty(rawId);
  }

  datatype Checked = Forward(userId: string) | Reject(response: Response)

  /** The validation create_user runs before it hands the id to
      save_new_user: the normalised id, or the 400 answer. */
  function CreateUserCheck(rawId: string): (r: Checked)
    ensures r.Reject? <==> forall i :: 0 <= i < |rawId| ==> Text.IsSpace(rawId[i])
    ensures r.Reject? ==> r.response == Response(400, Message(InvalidUserId))
    ensures r.Forward? ==> r.userId != [] && r.userId == Text.TrimLower(rawId)
  {
    var userId := Text.TrimLower(rawId);
    Text.TrimLowerEmpty(rawId);
    if !IsValidId(userId) then Reject(Response(400, Message(InvalidUserId))) else Forward(userId)
  }

  /** The member set of the user's room, when the user, their room_id, the
      room and its `users` set are all there. */
  function MembersOf(users: map<string, User>, rooms: map<string, Room>, userId: string): Option<set<string>> {
    if userId in users && users[userId].roomId.Some?
      && users[userId].roomId.value in rooms && rooms[users[userId].roomId.value].users != {}
    then Some(rooms[users[userId].roomId.value].users)
    else None
  }

  /** is_valid_user: a user id is valid when its record exists. */
  method IsValidUser(db: Store, userId: string) returns (valid: bool)
    ensures valid <==> userId in db.users
  {
    var user := UserPersistence.GetUser(db, userId);
    valid := user.Some?;
  }

  /** get_user_room: 400 for an invalid id, 404 for an unknown user, "NA"
      for a user without a room, otherwise the room's name (500 when the
      room or its name is missing). */
  method GetUserRoom(db: Store, rawId: string) returns (r: Response)
    ensures var id := Text.TrimLower(rawId);
      && (!IsValidId(id) ==> r == Response(400, RoomName(InvalidUsername)))
      && (IsValidId(id) && id !in db.users ==> r == Response(404, RoomName(UserNotFound)))
      && (IsValidId(id) && id in db.users && db.users[id].roomId.None? ==> r == Response(200, RoomName("NA")))
      && (IsValidId(id) && id in db.users && db.users[id].roomId.Some? ==>
            var rid := db.users[id].roomId.value;
            if rid in db.rooms && db.rooms[rid].name.Some?
            then r == Response(200, RoomName(db.rooms[rid].name.value))
            else r.status == 500)
  {
    var id := Text.TrimLower(rawId);
    if !IsValidId(id) {
      return Response(400, RoomName(InvalidUsername));
    }
    var user := UserPersistence.GetUser(db, id);
    if user.None? {
      return Response(404, RoomName(UserNotFound));
    }
    var roomId := user.value.roomId;
    if roomId.None? {
      return Response(200, RoomName("NA"));
    }
    var name := RoomPersistence.GetRoomName(db, roomId.value);
    if name.Thrown? {
      return Response(500, RoomName(ErrorMessage(name.error)));
    }
    r := Response(200, RoomName(name.value));
  }

  /** get_user_notification, a read with a side effect: every id in the
      user's set is marked read, and the answer lists one rendered entry per
      id, in the order the set is iterated (`order`). */
  method GetUserNotification(db: Store, rawId: string) returns (r: Response, ghost order: seq<string>)
    modifies db`notifs
    ensures var id := Text.TrimLower(rawId);
      && (!IsValidId(id) ==> r == Response(400, Message(InvalidUsername)) && unchanged(db))
      && (IsValidId(id) && id !in db.users ==> r == Response(404, Message(UserNotFound)) && unchanged(db))
    ensures var id := Text.TrimLower(rawId);
      IsValidId(id) && id in db.users ==>
        var ids := db.users[id].notifications;
        && r.status == 200 && r.body.Notifications?
        && |r.body.items| == |order|
        && (forall n :: n in order <==> n in ids)
        && (forall i, j :: 0 <= i < j < |order| ==> order[i] != order[j])
        && (forall i :: 0 <= i < |order| ==> r.body.items[i] == NotificationPersistence.Rendering(old(db.notifs), order[i]))
        && db.notifs.Keys == old(db.notifs).Keys
        && (forall n :: n in db.notifs ==>
              db.notifs[n] == if n in ids then old(db.notifs)[n].(read := true) else old(db.notifs)[n])
    ensures old(NotificationsConsistent(db.users, db.notifs)) ==> NotificationsConsistent(db.users, db.notifs)
  {
    order := [];
    var id := Text.TrimLower(rawId);
    if !IsValidId(id) {
      return Response(400, Message(InvalidUsername)), order;
    }
    var user := UserPersistence.GetUser(db, id);
    if user.None? {
      return Response(404, Message(UserNotFound)), order;
    }
    var ids := UserPersistence.GetNotification(db, id);
    var remaining := ids;
    var items: seq<Option<Rendered>> := [];
    while remaining != {}
      invariant remaining <= ids
      invariant forall n :: n in ids <==> n in remaining || n in order
      invariant forall n :: n in order ==> n !in remaining
      invariant forall i, j :: 0 <= i < j < |order| ==> order[i] != order[j]
      invariant |items| == |order|
      invariant forall i :: 0 <= i < |order| ==> items[i] == NotificationPersistence.Rendering(old(db.notifs), order[i])
      invariant db.notifs.Keys == old(db.notifs).Keys
      invariant forall n :: n in db.notifs ==>
        db.notifs[n] == if n in order then old(db.notifs)[n].(read := true) else old(db.notifs)[n]
      decreases |remaining|
    {
      var n :| n in remaining;
      NotificationPersistence.UpdateNotificationStatus(db, n);
      var item := NotificationPersistence.GetMsgType(db, n);
      assert item == NotificationPersistence.Rendering(old(db.notifs), n);
      items := items + [item];
      order := order + [n];
      remaining := remaining - {n};
    }
    r := Response(200, Notifications(items));
  }

  /** leave_user_room. With one member in the room, the room is deleted and
      the user's room_id cleared; with more, the user is removed from the
      room's set and their room_id cleared. A user without a room_id, or
      whose room or member set is missing, gets 500 with nothing written. */
  method LeaveUserRoom(db: Store, rawId: string) returns (r: Response)
    modifies db`rooms, db`users
    ensures var id := Text.TrimLower(rawId);
      && (!IsValidId(id) ==> r == Response(400, Message(InvalidUsername)) && unchanged(db))
      && (IsValidId(id) && id !in old(db.users) ==> r == Response(404, Message(UserNotFound)) && unchanged(db))
      && (IsValidId(id) && id in old(db.users) && old(db.users)[id].roomId.None? ==>
            r == Thrown500(UndefinedKey) && unchanged(db))
    ensures var id := Text.TrimLower(rawId);
      IsValidId(id) && id in old(db.users) && old(db.users)[id].roomId.Some? ==>
        var rid := old(db.users)[id].roomId.value;
        var cleared := old(db.users)[id := old(db.users)[id].(roomId := None)];
        && (rid !in old(db.rooms) || old(db.rooms)[rid].users == {} ==> r.status == 500 && unchanged(db))
        && (rid in old(db.rooms) && |old(db.rooms)[rid].users| == 1 ==>
              && r == Response(200, Message(RoomDeletedOnLeave))
              && db.rooms == old(db.rooms) - {rid}
              && db.users == cleared)
        && (rid in old(db.rooms) && |old(db.rooms)[rid].users| > 1 ==>
              && r == Response(200, Message(LeftRoom))
              && db.rooms == old(db.rooms)[rid := old(db.rooms)[rid].(users := old(db.rooms)[rid].users - {id})]
              && db.users == cleared)
    ensures old(MembershipConsistent(db.users, db.rooms)) ==> MembershipConsistent(db.users, db.rooms)
    ensures old(MembershipConsistent(db.users, db.rooms)) && r.status == 200 ==>
      Roomless(db.users, db.rooms, Text.TrimLower(rawId))
  {
    var id := Text.TrimLower(rawId);
    if !IsValidId(id) {
      return Response(400, Message(InvalidUsername));
    }
    var user := UserPersistence.GetUser(db, id);
    if user.None? {
      return Response(404, Message(UserNotFound));
    }
    var roomId := UserPersistence.GetRoomId(db, id);
    if roomId.None? {
      // get_room_users(undefined): the document client refuses the key
      return Thrown500(UndefinedKey);
    }
    var users := RoomPersistence.GetRoomUsers(db, roomId.value);
    if users.Thrown? {
      return Thrown500(users.error);
    }
    ghost var users0, rooms0 := db.users, db.rooms;
    if |users.value| == 1 {
      RoomPersistence.DeleteRoom(db, roomId.value);
      UserPersistence.RemoveRoomId(db, roomId.value, id);
      r := Response(200, Message(RoomDeletedOnLeave));
      if MembershipConsistent(users0, rooms0) {
        LeaveAsSoleMember(users0, rooms0, id);
      }
    } else {
      var removed := RoomPersistence.RemoveUserId(db, id, roomId.value);
      assert removed.Ok?;  // the room was read just above, so the guard holds
      UserPersistence.RemoveRoomId(db, roomId.value, id);
      r := Response(200, Message(LeftRoom));
      if MembershipConsistent(users0, rooms0) {
        LeaveSharedRoom(users0, rooms0, id);
      }
    }
  }

  /** get_user_warning: reads only; the warning depends on nothing but
      whether the room has exactly one member. */
  method GetUserWarning(db: Store, rawId: string) returns (r: Response)
    ensures var id := Text.TrimLower(rawId);
      && (!IsValidId(id) ==> r == Response(400, Message(InvalidUsername)))
      && (IsValidId(id) && id !in db.users ==> r == Response(404, Message(UserNotFound)))
      && (IsValidId(id) && id in db.users ==>
            var members := MembersOf(db.users, db.rooms, id);
            if members.Some?
            then r == Response(200, Message(if |members.value| == 1 then WarnRoomDeleted else WarnLeave))
            else r.status == 500)
  {
    var id := Text.TrimLower(rawId);
    if !IsValidId(id) {
      return Response(400, Message(InvalidUsername));
    }
    var user := UserPersistence.GetUser(db, id);
    if user.None? {
      return Response(404, Message(UserNotFound));
    }
    var roomId := UserPersistence.GetRoomId(db, id);
    if roomId.None? {
      return Thrown500(UndefinedKey);
    }
    var users := RoomPersistence.GetRoomUsers(db, roomId.value);
    if users.Thrown? {
      return Thrown500(users.error);
    }
    if |users.value| == 1 {
      r := Response(200, Message(WarnRoomDeleted));
    } else {
      r := Response(200, Message(WarnLeave));
    }
  }

  /** get_roommate compares `users.length` with 1, but `users` is a Set,
      whose `length` is undefined: every user whose room could be read is
      told they have at least one roommate, a sole member included. */
  method GetRoommate(db: Store, rawId: string) returns (r: Response)
    ensures var id := Text.TrimLower(rawId);
      && (!IsValidId(id) ==> r == Response(400, Message(InvalidUsername)))
      && (IsValidId(id) && id !in db.users ==> r == Response(404, Message(UserNotFound)))
      && (IsValidId(id) && id in db.users ==>
            if MembersOf(db.users, db.rooms, id).Some?
            then r == Response(200, Message(SomeRoommate))
            else r.status == 500)
  {
    var id := Text.TrimLower(rawId);
    if !IsValidId(id) {
      return Response(400, Message(InvalidUsername));
    }
    var user := UserPersistence.GetUser(db, id);
    if user.None? {
      return Response(404, Message(UserNotFound));
    }
    var roomId := UserPersistence.GetRoomId(db, id);
    if roomId.None? {
      return Thrown500(UndefinedKey);
    }
    var users := RoomPersistence.GetRoomUsers(db, roomId.value);
    if users.Thrown? {
      return Thrown500(users.error);
    }
    var length: Option<int> := None;  // users.length, undefined on a Set
    if length == Some(1) {
      r := Response(200, Message(NoRoommate));
    } else {
      r := Response(200, Message(SomeRoommate));
    }
  }

  /** get_roommates_helper: the member set of the user's room, the user
      included. */
  method GetRoommatesHelper(db: Store, userId: string) returns (r: Outcome<set<string>>)
    ensures r.Ok? <==> MembersOf(db.users, db.rooms, userId).Some?
    ensures r.Ok? ==> r.value == MembersOf(db.users, db.rooms, userId).value
    ensures MembershipConsistent(db.users, db.rooms) && r.Ok? ==> userId in r.value
    ensures MembershipConsistent(db.users, db.rooms) && userId in db.users && db.users[userId].roomId.Some? ==> r.Ok?
  {
    var roomId := UserPersistence.GetRoomId(db, userId);
    if roomId.None? {
      return Thrown(UndefinedKey);
    }
    r := RoomPersistence.GetRoomUsers(db, roomId.value);
  }

  /** areRoommates(u1, u2): whether u2 is in the member set of u1's room.
      Where the membership invariant holds, that is exactly "u2 has the same
      room_id as u1", so a user with a room is their own roommate. */
  method AreRoommates(db: Store, userId1: string, userId2: string) returns (r: Outcome<bool>)
    ensures r.Ok? <==> MembersOf(db.users, db.rooms, userId1).Some?
    ensures r.Ok? ==> (r.value <==> userId2 in MembersOf(db.users, db.rooms, userId1).value)
    ensures MembershipConsistent(db.users, db.rooms) && r.Ok? ==>
      (r.value <==> userId2 in db.users && db.users[userId2].roomId == db.users[userId1].roomId)
    ensures MembershipConsistent(db.users, db.rooms) && r.Ok? && userId1 == userId2 ==> r.value
  {
    var users := GetRoommatesHelper(db, userId1);
    if users.Thrown? {
      return Thrown(users.error);
    }
    r := Ok(userId2 in users.value);
  }

  /** delete_notification: 400 for an invalid user id or notification id,
      404 for an unknown user or an id the user does not hold (nothing
      written); otherwise the record is deleted, then the id is removed from
      the user's set. */
  method DeleteNotification(db: Store, rawUserId: string, rawNotifId: string) returns (r: Response)
    modifies db`users, db`notifs
    ensures var uid, nid := Text.TrimLower(rawUserId), Text.TrimLower(rawNotifId);
      && (!IsValidId(uid) ==> r == Response(400, Message(InvalidUsername)) && unchanged(db))
      && (IsValidId(uid) && !IsValidId(nid) ==> r == Response(400, Message(InvalidNotificationId)) && unchanged(db))
      && (IsValidId(uid) && IsValidId(nid) && uid !in old(db.users) ==>
            r == Response(404, Message(UserNotFound)) && unchanged(db))
      && (IsValidId(uid) && IsValidId(nid) && uid in old(db.users) && nid !in old(db.users)[uid].notifications ==>
            r == Response(404, Message(NotificationNotFound)) && unchanged(db))
      && (IsValidId(uid) && IsValidId(nid) && uid in old(db.users) && nid in old(db.users)[uid].notifications ==>
            && r == Response(200, Message(NotificationDeleted))
            && db.notifs == old(db.notifs) - {nid}
            && db.users == old(db.users)[uid := old(db.users)[uid].(notifications := old(db.users)[uid].notifications - {nid})])
    ensures old(NotificationsConsistent(db.users, db.notifs)) ==> NotificationsConsistent(db.users, db.notifs)
  {
    var uid := Text.TrimLower(rawUserId);
    var nid := Text.TrimLower(rawNotifId);
    if !IsValidId(uid) {
      return Response(400, Message(InvalidUsername));
    }
    if !IsValidId(nid) {
      return Response(400, Message(InvalidNotificationId));
    }
    var user := UserPersistence.GetUser(db, uid);
    if user.None? {
      return Response(404, Message(UserNotFound));
    }
    var held := UserPersistence.GetNotification(db, uid);
    if nid !in held {
      return Response(404, Message(NotificationNotFound));
    }
    ghost var users0, notifs0 := db.users, db.notifs;
    NotificationPersistence.DeleteNotification(db, nid);
    UserPersistence.UpdateNotificationSet(db, nid, uid);
    r := Response(200, Message(NotificationDeleted));
    if NotificationsConsistent(users0, notifs0) {
      DeleteNotificationKeeps(users0, notifs0, uid, nid);
    }
  }
}
