/** TaskHandler.js: creating, editing, completing and deleting a room's
    tasks. Each request normalises its fields, validates them, then runs
    single-item writes on the Task and Room tables in order, with no
    rollback, and answers with a status code. */
module TaskHandler {
  import opened Tables
  import opened Http
  import opened Listing
  import opened Invariants
  import Text
  import UserInfoHandler
  import RoomPersistence
  import TaskPersistence
  import UserPersistence

  const InvalidUsers := "Invalid users involved"
  const InvalidTaskFields := "Invalid task name or due date"
  const InvalidUser := "Invalid user"
  const TaskNotFound := "Task not found"
  const TaskCreated := "Task created successfully"
  const TaskDeleted := "Task deleted successfully"
  const TaskUpdated := "Task updated successfully"
  const TaskMarked := "Task marked as completed"
  const CreateFailed := "An error occurred while creating the task"
  const DeleteFailed := "An error occurred while deleting the task"
  const UpdateFailed := "An error occurred while updating the task"

  /** #is_valid_task_name: a non-empty string. */
  predicate IsValidTaskName(taskName: string) {
    |taskName| > 0
  }

  /** The name is trimmed before validation, so a name of white space alone
      is refused and any other is accepted. */
  lemma TrimmedTaskNameValid(tn: string)
    ensures IsValidTaskName(Text.Trim(tn)) <==> exists i :: 0 <= i < |tn| && !Text.IsSpace(tn[i])
  {
  }

  /** #is_valid_date, with the clock and the Date parser as inputs. `today`
      is the first date it accepts, as yyyy-MM-dd: new Date() reads a
      date-only string as UTC midnight and compares it with local midnight,
      so `today` is the local date at or east of UTC and the next day west
      of it. `parses` says whether new Date() accepts the string. The date
      must have the yyyy-MM-dd shape, parse, and not come before `today`. */
  predicate IsValidDate(dateString: string, today: string, parses: string -> bool) {
    Text.IsDateShape(dateString) && parses(dateString) && Text.LexLe(today, dateString)
  }

  /** A valid due date is today or a later day in the calendar, and a date
      before today is refused whatever the parser says. */
  lemma ValidDateNotPast(dateString: string, today: string, parses: string -> bool)
    requires Text.IsDateShape(today)
    ensures IsValidDate(dateString, today, parses) <==>
      Text.IsDateShape(dateString) && parses(dateString) && Text.DateNumber(today) <= Text.DateNumber(dateString)
  {
    if Text.IsDateShape(dateString) {
      Text.DateOrder(today, dateString);
    }
  }

  /** The Task table after create_task's put: the task is stored under a
      fresh id, and a taken id keeps the task it has. */
  function AfterPut(tasks: map<string, Task>, taskId: string, task: Task): map<string, Task> {
    if taskId in tasks then tasks else tasks[taskId := task]
  }

  /** The Room table after create_task's append: the id goes at the end of
      the creator's room list when that room and its list exist; otherwise
      no room changes. */
  function AfterAppend(rooms: map<string, Room>, roomId: Option<string>, taskId: string): map<string, Room> {
    if roomId.Some? && roomId.value in rooms && rooms[roomId.value].tasks.Some?
    then rooms[roomId.value := rooms[roomId.value].(tasks := Some(rooms[roomId.value].tasks.value + [taskId]))]
    else rooms
  }

  /** create_task's two writes keep every listed task id resolvable. */
  lemma CreateKeepsRefs(rooms: map<string, Room>, tasks: map<string, Task>, roomId: Option<string>, taskId: string, task: Task)
    requires TaskRefsResolve(rooms, tasks)
    ensures TaskRefsResolve(AfterAppend(rooms, roomId, taskId), AfterPut(tasks, taskId, task))
  {
    var put := AfterPut(tasks, taskId, task);
    MoreTasksKeepRefs(rooms, tasks, put);
    if roomId.Some? && roomId.value in rooms && rooms[roomId.value].tasks.Some? {
      AppendKeepsRefs(rooms, put, roomId.value, taskId);
    }
  }

  /** A new, not completed task whose id was appended to a room's list is in
      that room's pending listing. */
  lemma CreatedTaskPending(rooms: map<string, Room>, tasks: map<string, Task>, roomId: string, taskId: string, task: Task)
    requires taskId !in tasks && !task.complete
    requires roomId in rooms && rooms[roomId].tasks.Some?
    ensures Lists(TaskListing(AfterAppend(rooms, Some(roomId), taskId), AfterPut(tasks, taskId, task), roomId, false), taskId)
  {
    var rooms', tasks' := AfterAppend(rooms, Some(roomId), taskId), AfterPut(tasks, taskId, task);
    assert rooms'[roomId].tasks.value == rooms[roomId].tasks.value + [taskId];
    ListedIff(rooms', tasks', roomId, false, taskId);
  }

  /** The writes of a successful create_task: generate_new_task, then
      add_task_to_room for the creator's room when there is one. Both
      answers are ignored. */
  method PutAndAppend(db: Store, roomId: Option<string>, taskId: string, task: Task) returns (created: Status)
    requires !task.complete
    modifies db`tasks, db`rooms
    ensures created == Success <==> taskId !in old(db.tasks)
    ensures db.tasks == AfterPut(old(db.tasks), taskId, task)
    ensures db.rooms == AfterAppend(old(db.rooms), roomId, taskId)
    ensures taskId !in old(db.tasks) && roomId.Some? && roomId.value in old(db.rooms) && old(db.rooms)[roomId.value].tasks.Some? ==>
      Lists(TaskListing(db.rooms, db.tasks, roomId.value, false), taskId)
    ensures old(TaskRefsResolve(db.rooms, db.tasks)) ==> TaskRefsResolve(db.rooms, db.tasks)
  {
    ghost var rooms0, tasks0 := db.rooms, db.tasks;
    created := TaskPersistence.GenerateNewTask(db, taskId, task.description, task.assignee, task.dueDate);
    if roomId.Some? {
      var appended := RoomPersistence.AddTaskToRoom(db, roomId.value, taskId);
    }
    // With no room_id, add_task_to_room(undefined) throws inside its own try and answers FAILURE.
    if TaskRefsResolve(rooms0, tasks0) {
      CreateKeepsRefs(rooms0, tasks0, roomId, taskId, task);
    }
    if taskId !in tasks0 && roomId.Some? && roomId.value in rooms0 && rooms0[roomId.value].tasks.Some? {
      CreatedTaskPending(rooms0, tasks0, roomId.value, taskId, task);
    }
  }

  /** create_task. Invalid users are refused first (403), then an invalid
      name or date (403); neither writes anything. The roommate check is
      never effective: areRoommates is called without await and the Promise
      it returns is truthy. Otherwise the task is put (a taken id leaves the
      existing task) and its id appended to the creator's room list (a
      creator without a room, or a room without a list, gets no append);
      both results are ignored and the answer is 200. */
  method CreateTask(db: Store, tn: string, frm: string, to: string, date: string,
                    today: string, parses: string -> bool, taskId: string) returns (r: Response)
    modifies db`tasks, db`rooms
    ensures var userFrom, userTo := Text.TrimLower(frm), Text.TrimLower(to);
      !(userFrom in db.users && userTo in db.users) ==> r == Response(403, Message(InvalidUsers)) && unchanged(db)
    ensures var userFrom, userTo := Text.TrimLower(frm), Text.TrimLower(to);
      var taskName, dueDate := Text.Trim(tn), Text.Trim(date);
      userFrom in db.users && userTo in db.users && !(IsValidTaskName(taskName) && IsValidDate(dueDate, today, parses)) ==>
        r == Response(403, Message(InvalidTaskFields)) && unchanged(db)
    ensures var userFrom, userTo := Text.TrimLower(frm), Text.TrimLower(to);
      var taskName, dueDate := Text.Trim(tn), Text.Trim(date);
      userFrom in db.users && userTo in db.users && IsValidTaskName(taskName) && IsValidDate(dueDate, today, parses) ==>
        var rid := db.users[userFrom].roomId;
        && r == Response(200, Message(TaskCreated))
        && db.tasks == AfterPut(old(db.tasks), taskId, Task(taskName, userTo, dueDate, false))
        && db.rooms == AfterAppend(old(db.rooms), rid, taskId)
        && (taskId !in old(db.tasks) && rid.Some? && rid.value in old(db.rooms) && old(db.rooms)[rid.value].tasks.Some? ==>
              Lists(TaskListing(db.rooms, db.tasks, rid.value, false), taskId))
    ensures old(TaskRefsResolve(db.rooms, db.tasks)) ==> TaskRefsResolve(db.rooms, db.tasks)
  {
    var taskName := Text.Trim(tn);
    var userFrom := Text.TrimLower(frm);
    var userTo := Text.TrimLower(to);
    var dueDate := Text.Trim(date);
    var roomId := UserPersistence.GetRoomId(db, userFrom);
    var validTask := IsValidTaskName(taskName);
    var validFrom := UserInfoHandler.IsValidUser(db, userFrom);
    var validTo := UserInfoHandler.IsValidUser(db, userTo);
    var validDate := IsValidDate(dueDate, today, parses);
    if !validFrom || !validTo {
      return Response(403, Message(InvalidUsers));
    }
    // `if (!this.userHandler.areRoommates(user_from, user_to))` tests a Promise, never falsy.
    if !validTask || !validDate {
      return Response(403, Message(InvalidTaskFields));
    }
    var created := PutAndAppend(db, roomId, taskId, Task(taskName, userTo, dueDate, false));
    r := Response(200, Message(TaskCreated));
  }

  /** delete_task. 403 for an unknown user; 500 for a user without a room
      (the listing's Get refuses the undefined key); 404, with nothing
      written, unless the id is in the room's completed listing. Otherwise
      the room-side removal fails (and is ignored), the Task record is
      deleted, and the answer is 200: the id stays in the room's list but
      shows in neither listing, so the room lists an id without a record. */
  method DeleteTask(db: Store, id: string, frm: string) returns (r: Response)
    modifies db`tasks
    ensures var taskId, userId := Text.TrimLower(id), Text.TrimLower(frm);
      && (userId !in db.users ==> r == Response(403, Message(InvalidUser)) && unchanged(db))
      && (userId in db.users && db.users[userId].roomId.None? ==> r == Response(500, Message(DeleteFailed)) && unchanged(db))
    ensures var taskId, userId := Text.TrimLower(id), Text.TrimLower(frm);
      userId in db.users && db.users[userId].roomId.Some? ==>
        var rid := db.users[userId].roomId.value;
        if taskId in RoomTaskIds(db.rooms, rid) && taskId in old(db.tasks) && old(db.tasks)[taskId].complete
        then
          && r == Response(200, Message(TaskDeleted))
          && db.tasks == old(db.tasks) - {taskId}
          && taskId in RoomTaskIds(db.rooms, rid) && taskId !in db.tasks
          && !Lists(TaskListing(db.rooms, db.tasks, rid, false), taskId)
          && !Lists(TaskListing(db.rooms, db.tasks, rid, true), taskId)
        else r == Response(404, Message(TaskNotFound)) && unchanged(db)
  {
    var taskId := Text.TrimLower(id);
    var userId := Text.TrimLower(frm);
    var validFrom := UserInfoHandler.IsValidUser(db, userId);
    if !validFrom {
      return Response(403, Message(InvalidUser));
    }
    var roomId := UserPersistence.GetRoomId(db, userId);
    if roomId.None? {
      return Response(500, Message(DeleteFailed));
    }
    var taskList := RoomPersistence.GetCompletedTasks(db, roomId.value);
    ListedIff(db.rooms, db.tasks, roomId.value, true, taskId);
    if !Lists(taskList, taskId) {
      return Response(404, Message(TaskNotFound));
    }
    var removed := RoomPersistence.DeleteTaskFromRoom(db, roomId.value, taskId);
    var deleted := TaskPersistence.DeleteTask(db, taskId);
    DeletedTaskUnlisted(db.rooms, old(db.tasks), roomId.value, taskId);
    r := Response(200, Message(TaskDeleted));
  }

  /** edit_task. The same user and name/date checks as create_task, in the
      same order; then the task is fetched twice (the results are unused)
      and updated, which resets `complete` to false. update_task's answer is
      ignored: the reply is 200 even when no task has the id. */
  method EditTask(db: Store, id: string, tn: string, frm: string, to: string, date: string,
                  today: string, parses: string -> bool) returns (r: Response)
    modifies db`tasks
    ensures var userFrom, userTo := Text.TrimLower(frm), Text.TrimLower(to);
      !(userFrom in db.users && userTo in db.users) ==> r == Response(403, Message(InvalidUsers)) && unchanged(db)
    ensures var userFrom, userTo := Text.TrimLower(frm), Text.TrimLower(to);
      var taskName, dueDate := Text.Trim(tn), Text.Trim(date);
      userFrom in db.users && userTo in db.users && !(IsValidTaskName(taskName) && IsValidDate(dueDate, today, parses)) ==>
        r == Response(403, Message(InvalidTaskFields)) && unchanged(db)
    ensures var taskId, userFrom, userTo := Text.TrimLower(id), Text.TrimLower(frm), Text.TrimLower(to);
      var taskName, dueDate := Text.Trim(tn), Text.Trim(date);
      userFrom in db.users && userTo in db.users && IsValidTaskName(taskName) && IsValidDate(dueDate, today, parses) ==>
        && r == Response(200, Message(TaskUpdated))
        && db.tasks == if taskId in old(db.tasks)
                       then old(db.tasks)[taskId := Task(taskName, userTo, dueDate, false)]
                       else old(db.tasks)
  {
    var taskId := Text.TrimLower(id);
    var taskName := Text.Trim(tn);
    var userFrom := Text.TrimLower(frm);
    var userTo := Text.TrimLower(to);
    var dueDate := Text.Trim(date);
    var validTask := IsValidTaskName(taskName);
    var validFrom := UserInfoHandler.IsValidUser(db, userFrom);
    var validTo := UserInfoHandler.IsValidUser(db, userTo);
    var validDate := IsValidDate(dueDate, today, parses);
    if !validFrom || !validTo {
      return Response(403, Message(InvalidUsers));
    }
    // The roommate check tests an un-awaited Promise, as in create_task.
    if !validTask || !validDate {
      return Response(403, Message(InvalidTaskFields));
    }
    var first := TaskPersistence.GetTaskById(db, taskId);
    var second := TaskPersistence.GetTaskById(db, taskId);
    var updated := TaskPersistence.UpdateTask(db, taskId, taskName, userTo, dueDate);
    r := Response(200, Message(TaskUpdated));
  }

  /** mark_completed. 403 for an unknown user; 500 for a user without a room;
      404, with nothing written, unless the id is in the room's pending
      listing. Otherwise the task is marked completed: it leaves the pending
      listing for the completed one and the answer is 200 (a FAILURE from
      the write would give 500). */
  method MarkCompleted(db: Store, id: string, frm: string) returns (r: Response)
    modifies db`tasks
    ensures var taskId, userId := Text.TrimLower(id), Text.TrimLower(frm);
      && (userId !in db.users ==> r == Response(403, Message(InvalidUser)) && unchanged(db))
      && (userId in db.users && db.users[userId].roomId.None? ==> r == Response(500, Message(UpdateFailed)) && unchanged(db))
    ensures var taskId, userId := Text.TrimLower(id), Text.TrimLower(frm);
      userId in db.users && db.users[userId].roomId.Some? ==>
        var rid := db.users[userId].roomId.value;
        if taskId in RoomTaskIds(db.rooms, rid) && taskId in old(db.tasks) && !old(db.tasks)[taskId].complete
        then
          && r == Response(200, Message(TaskMarked))
          && db.tasks == old(db.tasks)[taskId := old(db.tasks)[taskId].(complete := true)]
          && !Lists(TaskListing(db.rooms, db.tasks, rid, false), taskId)
          && Lists(TaskListing(db.rooms, db.tasks, rid, true), taskId)
        else r == Response(404, Message(TaskNotFound)) && unchanged(db)
  {
    var taskId := Text.TrimLower(id);
    var userId := Text.TrimLower(frm);
    var validUser := UserInfoHandler.IsValidUser(db, userId);
    if !validUser {
      return Response(403, Message(InvalidUser));
    }
    var roomId := UserPersistence.GetRoomId(db, userId);
    if roomId.None? {
      return Response(500, Message(UpdateFailed));
    }
    var taskList := RoomPersistence.GetPendingTasks(db, roomId.value);
    ListedIff(db.rooms, db.tasks, roomId.value, false, taskId);
    if !Lists(taskList, taskId) {
      return Response(404, Message(TaskNotFound));
    }
    var marked := TaskPersistence.MarkCompleted(db, taskId);
    ListedIff(db.rooms, db.tasks, roomId.value, false, taskId);
    ListedIff(db.rooms, db.tasks, roomId.value, true, taskId);
    if marked == Success {
      r := Response(200, Message(TaskMarked));
    } else {
      r := Response(500, Message(UpdateFailed));
    }
  }
}
