/** What get_pending_tasks and get_completed_tasks compute: the room's task
    ids, the records that exist with the wanted `complete` flag, in list
    order, then sorted by due date. */
module Listing {
  import opened Tables
  import Text

  /** The ids a listing walks: the room's `tasks` list, or [] when the room
      or its list is missing. */
  function RoomTaskIds(rooms: map<string, Room>, roomId: string): seq<string> {
    if roomId in rooms && rooms[roomId].tasks.Some? then rooms[roomId].tasks.value else []
  }

  /** The items whose record exists and has `complete == complete`, in the
      order of `ids`. */
  function Select(ids: seq<string>, tasks: map<string, Task>, complete: bool): (r: seq<TaskItem>)
    ensures |r| <= |ids|
  {
    if ids == [] then []
    else
      var id := ids[|ids| - 1];
      Select(ids[..|ids| - 1], tasks, complete)
        + (if id in tasks && tasks[id].complete == complete then [TaskItem(id, tasks[id])] else [])
  }

  /** How many of `ids` have a record. */
  function CountExisting(ids: seq<string>, tasks: map<string, Task>): nat {
    if ids == [] then 0
    else CountExisting(ids[..|ids| - 1], tasks) + (if ids[|ids| - 1] in tasks then 1 else 0)
  }

  /** An item is selected exactly when its id is in the list, its record
      exists, it is that record, and the flag matches. */
  lemma {:induction false} SelectMember(ids: seq<string>, tasks: map<string, Task>, complete: bool, it: TaskItem)
    ensures it in Select(ids, tasks, complete)
        <==> it.id in ids && it.id in tasks && it.task == tasks[it.id] && it.task.complete == complete
  {
    if ids != [] {
      var front := ids[..|ids| - 1];
      SelectMember(front, tasks, complete, it);
      assert ids == front + [ids[|ids| - 1]];
    }
  }

  /** The pending and the completed selections split the ids that have a
      record: every such id lands in exactly one of them. */
  lemma {:induction false} SelectPartition(ids: seq<string>, tasks: map<string, Task>)
    ensures |Select(ids, tasks, false)| + |Select(ids, tasks, true)| == CountExisting(ids, tasks)
  {
    if ids != [] {
      SelectPartition(ids[..|ids| - 1], tasks);
    }
  }

  /** No id is both pending and completed, and an id without a record is in
      neither selection. */
  lemma SelectDisjoint(ids: seq<string>, tasks: map<string, Task>)
    ensures forall a, b :: a in Select(ids, tasks, false) && b in Select(ids, tasks, true) ==> a.id != b.id
    ensures forall it :: it in Select(ids, tasks, false) + Select(ids, tasks, true) ==> it.id in tasks
  {
    forall a, b | a in Select(ids, tasks, false) && b in Select(ids, tasks, true)
      ensures a.id != b.id
    {
      SelectMember(ids, tasks, false, a);
      SelectMember(ids, tasks, true, b);
    }
    forall it | it in Select(ids, tasks, false) + Select(ids, tasks, true)
      ensures it.id in tasks
    {
      SelectMember(ids, tasks, false, it);
      SelectMember(ids, tasks, true, it);
    }
  }

  /** a may stay before b under the comparator
      (a, b) => a.due_date.localeCompare(b.due_date): the comparison is not positive. */
  predicate DueLe(a: TaskItem, b: TaskItem) {
    Text.LexLe(a.task.dueDate, b.task.dueDate)
  }

  predicate SortedByDue(s: seq<TaskItem>) {
    forall i, j :: 0 <= i < j < |s| ==> DueLe(s[i], s[j])
  }

  /** Places x before the first element it does not come after. */
  function InsertByDue(x: TaskItem, s: seq<TaskItem>): (r: seq<TaskItem>)
    ensures multiset(r) == multiset(s) + multiset{x}
  {
    if s == [] then [x]
    else if DueLe(x, s[0]) then [x] + s
    else
      assert s == [s[0]] + s[1..];
      [s[0]] + InsertByDue(x, s[1..])
  }

  /** Array.prototype.sort by due date, as an insertion sort; like the
      JavaScript sort it keeps items with equal due dates in list order. */
  function SortByDue(s: seq<TaskItem>): (r: seq<TaskItem>)
    ensures multiset(r) == multiset(s)
  {
    if s == [] then []
    else
      assert s == [s[0]] + s[1..];
      InsertByDue(s[0], SortByDue(s[1..]))
  }

  lemma {:induction false} InsertByDueSorted(x: TaskItem, s: seq<TaskItem>)
    requires SortedByDue(s)
    ensures SortedByDue(InsertByDue(x, s))
  {
    if s == [] {
    } else if DueLe(x, s[0]) {
      forall j | 0 <= j < |s| ensures DueLe(x, s[j]) {
        if j > 0 {
          Text.LexLeTransitive(x.task.dueDate, s[0].task.dueDate, s[j].task.dueDate);
        }
      }
    } else {
      InsertByDueSorted(x, s[1..]);
      var r := InsertByDue(x, s[1..]);
      Text.LexLeTotal(x.task.dueDate, s[0].task.dueDate);
      forall k | 0 <= k < |r| ensures DueLe(s[0], r[k]) {
        assert r[k] in multiset(r);
        if r[k] != x {
          assert r[k] in s[1..];
        }
      }
    }
  }

  /** The sorted listing is in due-date order (SortByDue itself keeps the items). */
  lemma {:induction false} SortByDueSorted(s: seq<TaskItem>)
    ensures SortedByDue(SortByDue(s))
  {
    if s != [] {
      SortByDueSorted(s[1..]);
      InsertByDueSorted(s[0], SortByDue(s[1..]));
    }
  }

  /** What get_pending_tasks (complete == false) and get_completed_tasks
      (complete == true) return for a room. */
  function TaskListing(rooms: map<string, Room>, tasks: map<string, Task>, roomId: string, complete: bool): (r: seq<TaskItem>)
    ensures SortedByDue(r)
    ensures multiset(r) == multiset(Select(RoomTaskIds(rooms, roomId), tasks, complete))
  {
    var selected := Select(RoomTaskIds(rooms, roomId), tasks, complete);
    SortByDueSorted(selected);
    SortByDue(selected)
  }

  /** items.some(task => task.task_id === id) */
  predicate Lists(items: seq<TaskItem>, id: string) {
    exists i :: 0 <= i < |items| && items[i].id == id
  }

  /** An id is in a room's listing exactly when it is in the room's list and
      its record exists with the wanted flag. */
  lemma ListedIff(rooms: map<string, Room>, tasks: map<string, Task>, roomId: string, complete: bool, id: string)
    ensures Lists(TaskListing(rooms, tasks, roomId, complete), id)
        <==> id in RoomTaskIds(rooms, roomId) && id in tasks && tasks[id].complete == complete
  {
    var ids := RoomTaskIds(rooms, roomId);
    var sel := Select(ids, tasks, complete);
    var l := TaskListing(rooms, tasks, roomId, complete);
    assert multiset(l) == multiset(sel);
    if Lists(l, id) {
      var i :| 0 <= i < |l| && l[i].id == id;
      assert l[i] in multiset(sel);
      SelectMember(ids, tasks, complete, l[i]);
    }
    if id in ids && id in tasks && tasks[id].complete == complete {
      var it := TaskItem(id, tasks[id]);
      SelectMember(ids, tasks, complete, it);
      assert it in multiset(l);
      var i :| 0 <= i < |l| && l[i] == it;
    }
  }

  /** Once a task's record is deleted, neither listing shows its id, whatever
      the room's list still holds. */
  lemma DeletedTaskUnlisted(rooms: map<string, Room>, tasks: map<string, Task>, roomId: string, id: string)
    ensures !Lists(TaskListing(rooms, tasks - {id}, roomId, false), id)
    ensures !Lists(TaskListing(rooms, tasks - {id}, roomId, true), id)
  {
    ListedIff(rooms, tasks - {id}, roomId, false, id);
    ListedIff(rooms, tasks - {id}, roomId, true, id);
  }

  /** Marking a listed pending task completed moves it from the pending
      listing to the completed listing, and no other id changes listing. */
  lemma CompletionMovesTask(rooms: map<string, Room>, tasks: map<string, Task>, roomId: string, id: string, other: string)
    requires id in tasks
    requires other != id
    ensures var done := tasks[id := tasks[id].(complete := true)];
      && !Lists(TaskListing(rooms, done, roomId, false), id)
      && (id in RoomTaskIds(rooms, roomId) ==> Lists(TaskListing(rooms, done, roomId, true), id))
      && (Lists(TaskListing(rooms, done, roomId, false), other) <==> Lists(TaskListing(rooms, tasks, roomId, false), other))
      && (Lists(TaskListing(rooms, done, roomId, true), other) <==> Lists(TaskListing(rooms, tasks, roomId, true), other))
  {
    var done := tasks[id := tasks[id].(complete := true)];
    ListedIff(rooms, done, roomId, false, id);
    ListedIff(rooms, done, roomId, true, id);
    ListedIff(rooms, done, roomId, false, other);
    ListedIff(rooms, done, roomId, true, other);
    ListedIff(rooms, tasks, roomId, false, other);
    ListedIff(rooms, tasks, roomId, true, other);
  }
}
