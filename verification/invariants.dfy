/** The cross-table invariants that the backend's multi-step operations are
    meant to keep, and lemmas that the handlers' write sequences keep them. */
module Invariants {
  import opened Tables

  /** A user's room_id names a room exactly when the user is in that room's
      `users` set; no room_id dangles; no room is left without members; and
      every member is a registered user. */
  ghost predicate MembershipConsistent(users: map<string, User>, rooms: map<string, Room>) {
    && (forall u, r :: u in users && r in rooms ==> (users[u].roomId == Some(r) <==> u in rooms[r].users))
    && (forall u :: u in users && users[u].roomId.Some? ==> users[u].roomId.value in rooms)
    && (forall r :: r in rooms ==> rooms[r].users != {})
    && (forall r, u :: r in rooms && u in rooms[r].users ==> u in users)
  }

  /** A user who is in no room: no room_id and in no room's `users` set. */
  ghost predicate Roomless(users: map<string, User>, rooms: map<string, Room>, u: string) {
    && (u in users ==> users[u].roomId == None)
    && (forall r :: r in rooms ==> u !in rooms[r].users)
  }

  lemma SingletonOf(s: set<string>, u: string)
    requires |s| == 1 && u in s
    ensures s == {u}
  {
    assert |s - {u}| == 0;
    assert s - {u} == {};
  }

  /** leave_user_room when the room has one member: under the invariant that
      member is the leaving user, and deleting the room and clearing the
      user's room_id keeps the invariant. */
  lemma {:induction false} LeaveAsSoleMember(users: map<string, User>, rooms: map<string, Room>, u: string)
    requires MembershipConsistent(users, rooms)
    requires u in users && users[u].roomId.Some?
    requires |rooms[users[u].roomId.value].users| == 1
    ensures var r := users[u].roomId.value;
      && rooms[r].users == {u}
      && var users', rooms' := users[u := users[u].(roomId := None)], rooms - {r};
      && MembershipConsistent(users', rooms')
      && Roomless(users', rooms', u)
  {
    var r := users[u].roomId.value;
    SingletonOf(rooms[r].users, u);
    var users', rooms' := users[u := users[u].(roomId := None)], rooms - {r};
    forall v | v in users' && users'[v].roomId.Some?
      ensures users'[v].roomId.value in rooms'
    {
      assert v != u;
    }
  }

  /** leave_user_room when the room has several members: removing the user
      from the set and clearing their room_id keeps the invariant, and the
      room keeps its other members. */
  lemma {:induction false} LeaveSharedRoom(users: map<string, User>, rooms: map<string, Room>, u: string)
    requires MembershipConsistent(users, rooms)
    requires u in users && users[u].roomId.Some?
    requires |rooms[users[u].roomId.value].users| != 1
    ensures var r := users[u].roomId.value;
      && rooms[r].users - {u} != {}
      && var users' := users[u := users[u].(roomId := None)];
      && var rooms' := rooms[r := rooms[r].(users := rooms[r].users - {u})];
      && MembershipConsistent(users', rooms')
      && Roomless(users', rooms', u)
  {
    var r := users[u].roomId.value;
    var s := rooms[r].users;
    assert u in s;
    assert |s - {u}| == |s| - 1;
  }

  /** Every notification id a user holds has a record, every record is held,
      and no two users hold the same id. */
  ghost predicate NotificationsConsistent(users: map<string, User>, notifs: map<string, Notification>) {
    && (forall u, n :: u in users && n in users[u].notifications ==> n in notifs)
    && (forall n :: n in notifs ==> exists u :: u in users && n in users[u].notifications)
    && (forall u, v, n :: u in users && v in users && n in users[u].notifications && n in users[v].notifications ==> u == v)
  }

  /** delete_notification's two writes, the record first and then the user's
      set, together keep the invariant. */
  lemma {:induction false} DeleteNotificationKeeps(users: map<string, User>, notifs: map<string, Notification>, u: string, n: string)
    requires NotificationsConsistent(users, notifs)
    requires u in users && n in users[u].notifications
    ensures NotificationsConsistent(users[u := users[u].(notifications := users[u].notifications - {n})], notifs - {n})
  {
    var users' := users[u := users[u].(notifications := users[u].notifications - {n})];
    forall m | m in notifs - {n}
      ensures exists v :: v in users' && m in users'[v].notifications
    {
      var v :| v in users && m in users[v].notifications;
      assert m in users'[v].notifications;
    }
  }

  /** Every id in a room's task list has a Task record. */
  ghost predicate TaskRefsResolve(rooms: map<string, Room>, tasks: map<string, Task>) {
    forall r, i :: r in rooms && rooms[r].tasks.Some? && 0 <= i < |rooms[r].tasks.value| ==> rooms[r].tasks.value[i] in tasks
  }
  /** Adding task records keeps every listed id resolvable. */
  lemma MoreTasksKeepRefs(rooms: map<string, Room>, tasks: map<string, Task>, more: map<string, Task>)
    requires TaskRefsResolve(rooms, tasks)
    requires tasks.Keys <= more.Keys
    ensures TaskRefsResolve(rooms, more)
  {
  }

  /** Appending the id of an existing record to a room's list keeps every
      listed id resolvable. */
  lemma AppendKeepsRefs(rooms: map<string, Room>, tasks: map<string, Task>, roomId: string, taskId: string)
    requires TaskRefsResolve(rooms, tasks)
    requires roomId in rooms && rooms[roomId].tasks.Some?
    requires taskId in tasks
    ensures TaskRefsResolve(rooms[roomId := rooms[roomId].(tasks := Some(rooms[roomId].tasks.value + [taskId]))], tasks)
  {
    var grown := rooms[roomId := rooms[roomId].(tasks := Some(rooms[roomId].tasks.value + [taskId]))];
    forall r, i | r in grown && grown[r].tasks.Some? && 0 <= i < |grown[r].tasks.value|
      ensures grown[r].tasks.value[i] in tasks
    {
      if r == roomId && i == |rooms[roomId].tasks.value| {
      } else {
        assert grown[r].tasks.value[i] == rooms[r].tasks.value[i];
      }
    }
  }
  /** Deleting the record of a task whose id a room still lists breaks
      TaskRefsResolve: the listed id no longer has a record. */
  lemma DeletedTaskDangles(rooms: map<string, Room>, tasks: map<string, Task>, roomId: string, taskId: string)
    requires roomId in rooms && rooms[roomId].tasks.Some? && taskId in rooms[roomId].tasks.value
    ensures !TaskRefsResolve(rooms, tasks - {taskId})
  {
    var i :| 0 <= i < |rooms[roomId].tasks.value| && rooms[roomId].tasks.value[i] == taskId;
  }
}
