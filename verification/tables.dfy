/** The four DynamoDB tables the backend keeps (User, Room, Task and
    Notification), each a map from its key to the record stored under it,
    and the values the persistence layer hands back. */
module Tables {

  datatype Option<+T> = None | Some(value: T)

  /** What the modelled code throws. Every handler turns a thrown error into
      status 500. */
  datatype Error =
    | NoItem(attribute: string)     // TypeError: `attribute` read off the undefined Item of a missing record
    | Unavailable(message: string)  // a required room attribute is missing
    | ConditionFailed               // a conditional write the store rejected and nobody caught
    | UndefinedKey                  // the document client refuses a key whose value is undefined

  /** error.message, as the handlers of UserInfoHandler.js put it in the body. */
  function ErrorMessage(e: Error): string {
    match e
    case NoItem(a) => "Cannot read properties of undefined (reading '" + a + "')"
    case Unavailable(m) => m
    case ConditionFailed => "The conditional request failed"
    case UndefinedKey => "Pass options.removeUndefinedValues=true to remove undefined values from map/array/set."
  }

  /** The value a call returns, or the error it throws. */
  datatype Outcome<+T> = Ok(value: T) | Thrown(error: Error)

  /** The strings persistence calls return: "SUCCESS", "FAILURE", and
      "FAILED" (what generate_new_room returns when the id is taken). */
  datatype Status = Success | Failure | Failed

  /** A User record, keyed by its lower-case user id. `roomId` is None while
      the attribute has never been set or has been removed. */
  datatype User = User(roomId: Option<string>, notifications: set<string>)

  /** A Room record. A DynamoDB string set is never empty (deleting its last
      element removes the attribute), so `users == {}` stands for a room
      without a `users` attribute. `name` and `tasks` are missing on a room
      that only an ADD of a roommate has created. */
  datatype Room = Room(name: Option<string>, users: set<string>, tasks: Option<seq<string>>)

  /** A Task record: task_description, asignee, due_date and complete. */
  datatype Task = Task(description: string, assignee: string, dueDate: string, complete: bool)

  /** A Notification record, and the part of it a listing shows. */
  datatype Notification = Notification(from: string, message: string, read: bool)
  datatype Rendered = Rendered(from: string, message: string)

  /** A Task item as a Get returns it: the record together with its key. */
  datatype TaskItem = TaskItem(id: string, task: Task)

  /** The store: one map per table, each changed one item at a time. */
  class Store {
    var users: map<string, User>
    var rooms: map<string, Room>
    var tasks: map<string, Task>
    var notifs: map<string, Notification>

    constructor ()
      ensures users == map[] && rooms == map[] && tasks == map[] && notifs == map[]
    {
      users, rooms, tasks, notifs := map[], map[], map[], map[];
    }
  }
}
