/** RoomPersistence.js: the calls that read and write the Room table, each
    one item at a time, and the two task listings that read the Task table
    through a room's task list. */
module RoomPersistence {
  import opened Tables
  import opened Listing

  const NameMissing := "Room doesn't have a name--Service Unavailable"
  const UsersMissing := "Room doesn't have an user--Service Unavailable"

  /** get_room_name: the room's name; a missing room throws reading `name`
      off the undefined item, a room without a name throws Unavailable. */
  method GetRoomName(db: Store, roomId: string) returns (r: Outcome<string>)
    ensures r.Ok? <==> roomId in db.rooms && db.rooms[roomId].name.Some?
    ensures r.Ok? ==> r.value == db.rooms[roomId].name.value
    ensures roomId !in db.rooms ==> r == Thrown(NoItem("name"))
    ensures roomId in db.rooms && db.rooms[roomId].name.None? ==> r == Thrown(Unavailable(NameMissing))
  {
    if roomId !in db.rooms {
      return Thrown(NoItem("name"));
    }
    var name := db.rooms[roomId].name;
    if name.None? {
      return Thrown(Unavailable(NameMissing));
    }
    r := Ok(name.value);
  }

  /** generate_new_room: a conditional put that refuses an existing id. */
  method GenerateNewRoom(db: Store, uniqueId: string, roomName: string, userId: string) returns (s: Status)
    modifies db`rooms
    ensures s == Success <==> uniqueId !in old(db.rooms)
    ensures s != Success ==> s == Failed && db.rooms == old(db.rooms)
    ensures s == Success ==> db.rooms == old(db.rooms)[uniqueId := Room(Some(roomName), {userId}, Some([]))]
  {
    if uniqueId in db.rooms {
      // ConditionalCheckFailedException, caught
      return Failed;
    }
    db.rooms := db.rooms[uniqueId := Room(Some(roomName), {userId}, Some([]))];
    s := Success;
  }

  /** add_new_roommate: ADD to the `users` set. The update has no condition,
      so on a missing room it creates an item holding only `users`. Adding a
      present member changes nothing. */
  method AddNewRoommate(db: Store, roomId: string, newRoommateId: string)
    modifies db`rooms
    ensures roomId in old(db.rooms) ==>
      db.rooms == old(db.rooms)[roomId := old(db.rooms)[roomId].(users := old(db.rooms)[roomId].users + {newRoommateId})]
    ensures roomId !in old(db.rooms) ==> db.rooms == old(db.rooms)[roomId := Room(None, {newRoommateId}, None)]
    ensures roomId in old(db.rooms) && newRoommateId in old(db.rooms)[roomId].users ==> db.rooms == old(db.rooms)
  {
    if roomId in db.rooms {
      var room := db.rooms[roomId];
      assert newRoommateId in room.users ==> room.(users := room.users + {newRoommateId}) == room;
      db.rooms := db.rooms[roomId := room.(users := room.users + {newRoommateId})];
    } else {
      db.rooms := db.rooms[roomId := Room(None, {newRoommateId}, None)];
    }
  }

  /** get_room_users: the room's member set; a missing room, or a room
      whose set is gone, throws. */
  method GetRoomUsers(db: Store, roomId: string) returns (r: Outcome<set<string>>)
    ensures r.Ok? <==> roomId in db.rooms && db.rooms[roomId].users != {}
    ensures r.Ok? ==> r.value == db.rooms[roomId].users
    ensures roomId !in db.rooms ==> r == Thrown(NoItem("users"))
    ensures roomId in db.rooms && db.rooms[roomId].users == {} ==> r == Thrown(Unavailable(UsersMissing))
  {
    if roomId !in db.rooms {
      return Thrown(NoItem("users"));
    }
    var users := db.rooms[roomId].users;
    if users == {} {
      return Thrown(Unavailable(UsersMissing));
    }
    r := Ok(users);
  }

  /** delete_room: removes that room's item and nothing else; deleting a
      missing room changes nothing. */
  method DeleteRoom(db: Store, roomId: string)
    modifies db`rooms
    ensures db.rooms == old(db.rooms) - {roomId}
    ensures roomId !in old(db.rooms) ==> db.rooms == old(db.rooms)
  {
    db.rooms := db.rooms - {roomId};
  }

  /** remove_user_id: DELETE from the `users` set, guarded by the room's
      existence; the guard's failure is not caught. */
  method RemoveUserId(db: Store, userId: string, roomId: string) returns (r: Outcome<()>)
    modifies db`rooms
    ensures r.Ok? <==> roomId in old(db.rooms)
    ensures r.Thrown? ==> r.error == ConditionFailed && db.rooms == old(db.rooms)
    ensures r.Ok? ==>
      db.rooms == old(db.rooms)[roomId := old(db.rooms)[roomId].(users := old(db.rooms)[roomId].users - {userId})]
  {
    if roomId !in db.rooms {
      return Thrown(ConditionFailed);
    }
    var room := db.rooms[roomId];
    db.rooms := db.rooms[roomId := room.(users := room.users - {userId})];
    r := Ok(());
  }

  /** add_task_to_room: list_append to `tasks`, guarded by the room's
      existence; list_append on a missing list is rejected too. Either
      rejection is caught and answered FAILURE. */
  method AddTaskToRoom(db: Store, roomId: string, taskId: string) returns (s: Status)
    modifies db`rooms
    ensures s == Success <==> roomId in old(db.rooms) && old(db.rooms)[roomId].tasks.Some?
    ensures s != Success ==> s == Failure && db.rooms == old(db.rooms)
    ensures s == Success ==>
      db.rooms == old(db.rooms)[roomId := old(db.rooms)[roomId].(tasks := Some(old(db.rooms)[roomId].tasks.value + [taskId]))]
  {
    if roomId !in db.rooms || db.rooms[roomId].tasks.None? {
      return Failure;
    }
    var room := db.rooms[roomId];
    db.rooms := db.rooms[roomId := room.(tasks := Some(room.tasks.value + [taskId]))];
    s := Success;
  }

  /** delete_task_from_room: a set DELETE applied to the `tasks` list. With
      no list the guard fails; with a list the store rejects a set operand
      on a list attribute. Both are caught: the answer is FAILURE and the
      room keeps its list. */
  method DeleteTaskFromRoom(db: Store, roomId: string, taskId: string) returns (s: Status)
    ensures s == Failure
  {
    if roomId !in db.rooms || db.rooms[roomId].tasks.None? {
      // ConditionalCheckFailedException on attribute_exists(tasks)
      s := Failure;
    } else {
      // ValidationException: DELETE takes a set, `tasks` is a list
      s := Failure;
    }
  }

  /** The loop both listings share: fetch each id's Task item in list order
      and keep those whose `complete` equals the wanted flag. */
  method FetchTasks(db: Store, ids: seq<string>, complete: bool) returns (items: seq<TaskItem>)
    ensures items == Select(ids, db.tasks, complete)
  {
    items := [];
    var i := 0;
    while i < |ids|
      invariant 0 <= i <= |ids|
      invariant items == Select(ids[..i], db.tasks, complete)
    {
      var id := ids[i];
      if id in db.tasks && db.tasks[id].complete == complete {
        items := items + [TaskItem(id, db.tasks[id])];
      }
      assert ids[..i + 1][..i] == ids[..i];
      i := i + 1;
    }
    assert ids[..|ids|] == ids;
  }

  /** get_pending_tasks: the room's tasks whose record exists with
      complete == false, sorted by due date. A missing room or list gives []. */
  method GetPendingTasks(db: Store, roomId: string) returns (r: seq<TaskItem>)
    ensures r == TaskListing(db.rooms, db.tasks, roomId, false)
    ensures SortedByDue(r)
    ensures forall it :: it in r <==>
      it.id in RoomTaskIds(db.rooms, roomId) && it.id in db.tasks && it.task == db.tasks[it.id] && !it.task.complete
    ensures RoomTaskIds(db.rooms, roomId) == [] ==> r == []
  {
    r := ListTasks(db, roomId, false);
  }

  /** get_completed_tasks: the same for complete == true. */
  method GetCompletedTasks(db: Store, roomId: string) returns (r: seq<TaskItem>)
    ensures r == TaskListing(db.rooms, db.tasks, roomId, true)
    ensures SortedByDue(r)
    ensures forall it :: it in r <==>
      it.id in RoomTaskIds(db.rooms, roomId) && it.id in db.tasks && it.task == db.tasks[it.id] && it.task.complete
    ensures RoomTaskIds(db.rooms, roomId) == [] ==> r == []
  {
    r := ListTasks(db, roomId, true);
  }

  method ListTasks(db: Store, roomId: string, complete: bool) returns (r: seq<TaskItem>)
    ensures r == TaskListing(db.rooms, db.tasks, roomId, complete)
    ensures SortedByDue(r)
    ensures forall it :: it in r <==>
      it.id in RoomTaskIds(db.rooms, roomId) && it.id in db.tasks && it.task == db.tasks[it.id] && it.task.complete == complete
  {
    // response.Item?.tasks ? [...response.Item.tasks] : []
    var ids := if roomId in db.rooms && db.rooms[roomId].tasks.Some? then db.rooms[roomId].tasks.value else [];
    var items := FetchTasks(db, ids, complete);
    r := SortByDue(items);
    SortByDueSorted(items);
    forall it ensures it in r <==> it in items {
      assert it in r <==> it in multiset(r);
    }
    forall it ensures it in items <==>
      it.id in ids && it.id in db.tasks && it.task == db.tasks[it.id] && it.task.complete == complete
    {
      SelectMember(ids, db.tasks, complete, it);
    }
  }
}
