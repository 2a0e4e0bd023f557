/** TaskPersistence.js: the calls that read and write the Task table, keyed
    by task_id, one item at a time. */
module TaskPersistence {
  import opened Tables

  /** get_task_by_id: the stored item, or None where the source returns the
      string "FAILURE". */
  method GetTaskById(db: Store, taskId: string) returns (r: Option<Task>)
    ensures r.Some? <==> taskId in db.tasks
    ensures r.Some? ==> r.value == db.tasks[taskId]
  {
    if taskId !in db.tasks {
      return None;
    }
    r := Some(db.tasks[taskId]);
  }

  /** update_task: overwrites description, assignee and due date and resets
      `complete` to false, guarded by the task's existence; a missing task
      is answered FAILURE and no item is created. */
  method UpdateTask(db: Store, taskId: string, taskName: string, userTo: string, dueDate: string) returns (s: Status)
    modifies db`tasks
    ensures s == Success <==> taskId in old(db.tasks)
    ensures s != Success ==> s == Failure && db.tasks == old(db.tasks)
    ensures s == Success ==> db.tasks == old(db.tasks)[taskId := Task(taskName, userTo, dueDate, false)]
  {
    if taskId !in db.tasks {
      return Failure;
    }
    db.tasks := db.tasks[taskId := Task(taskName, userTo, dueDate, false)];
    s := Success;
  }

  /** generate_new_task: a conditional put of a not-yet-completed task that
      refuses an existing id and leaves that task as it was. */
  method GenerateNewTask(db: Store, uniqueId: string, taskDescription: string, userId: string, dueDate: string)
    returns (s: Status)
    modifies db`tasks
    ensures s == Success <==> uniqueId !in old(db.tasks)
    ensures s != Success ==> s == Failure && db.tasks == old(db.tasks)
    ensures s == Success ==> db.tasks == old(db.tasks)[uniqueId := Task(taskDescription, userId, dueDate, false)]
  {
    if uniqueId in db.tasks {
      return Failure;
    }
    db.tasks := db.tasks[uniqueId := Task(taskDescription, userId, dueDate, false)];
    s := Success;
  }

  /** mark_completed: sets `complete` to true and nothing else, guarded by
      the task's existence. Marking a completed task again changes nothing. */
  method MarkCompleted(db: Store, taskId: string) returns (s: Status)
    modifies db`tasks
    ensures s == Success <==> taskId in old(db.tasks)
    ensures s != Success ==> s == Failure && db.tasks == old(db.tasks)
    ensures s == Success ==> db.tasks == old(db.tasks)[taskId := old(db.tasks)[taskId].(complete := true)]
    ensures s == Success ==> db.tasks[taskId].complete
    ensures taskId in old(db.tasks) && old(db.tasks)[taskId].complete ==> db.tasks == old(db.tasks)
  {
    if taskId !in db.tasks {
      return Failure;
    }
    var task := db.tasks[taskId];
    assert task.complete ==> task.(complete := true) == task;
    db.tasks := db.tasks[taskId := task.(complete := true)];
    s := Success;
  }

  /** delete_task: removes the item, and answers SUCCESS whether or not it
      was there. */
  method DeleteTask(db: Store, taskId: string) returns (s: Status)
    modifies db`tasks
    ensures s == Success
    ensures db.tasks == old(db.tasks) - {taskId}
  {
    db.tasks := db.tasks - {taskId};
    s := Success;
  }
}
