# RoomHub backend: rooms, tasks and notifications

This project models the bookkeeping core of the RoomHub backend in Dafny.
Roommates share a room. A room holds a member set and an ordered list of
task ids. Each task is a record with a description, an assignee, a due date
and a `complete` flag. Each user holds a set of notification ids.

The four DynamoDB tables (User, Room, Task and Notification) are the four
map fields of one `Tables.Store` object. One module models each source file:

- `RoomPersistence`: the Room table operations, and the pending and
  completed task listings.
- `TaskPersistence`: the Task table operations.
- `UserInfoHandler`: the user requests (room name, leaving a room, warnings,
  notifications, roommates).
- `TaskHandler`: the task requests (create, delete, edit, mark completed)
  and their validators.

Each handler is a method. It normalises the request's fields, validates
them, runs single-record writes in the source's order, and returns a
`Http.Response` (status code and body). A thrown error becomes status 500.

Shared definitions:

- `Text`: JavaScript's `trim()` and `toLowerCase()`, the code-unit order
  behind `localeCompare`, and the `yyyy-MM-dd` date shape.
- `Listing`: the pure specification of the task listings (filter, then a
  stable sort by due date).
- `Invariants`: the store invariants and which handlers keep them:
  - room membership agrees with each user's `room_id` (kept by
    `leave_user_room`);
  - each notification belongs to exactly one user (kept by
    `get_user_notification` and `delete_notification`);
  - every task id in a room's list has a record (kept by `create_task`, and
    broken by every successful `delete_task`, which deletes the record of an
    id that stays listed).

DynamoDB behaviour the code depends on is modelled explicitly:

- A string set is never empty: removing its last element removes the
  attribute, so `users == {}` stands for a missing `users` attribute.
- An UPDATE without a condition creates the item. `add_new_roommate` can
  therefore create a room that has no name and no task list.
- `list_append` onto a missing list fails.
- A set `DELETE` applied to a list attribute is rejected. So
  `delete_task_from_room` always answers FAILURE. `delete_task` ignores
  that answer, which leaves the deleted id in the room's list. The id then
  shows in neither listing, because its record is gone.
- A key whose value is `undefined` is refused by the document client.

Two slips in the source are modelled as the code behaves:

- `areRoommates` is not awaited in `create_task` and `edit_task`. The
  Promise is truthy, so the "Users are not roommates" answer never occurs.
- `get_roommate` reads `.length` of a Set, which is undefined. Every user
  whose room can be read is therefore told they have at least one roommate.

## Model

| member | source | states |
|---|---|---|
| RoomPersistence.GetRoomName | Backend/src/Persistence/RoomPersistence.js:89-103 | Returns the room's name when the room and its name exist. Otherwise it throws: a missing item is a TypeError, and a missing name is "Room doesn't have a name--Service Unavailable". |
| RoomPersistence.GenerateNewRoom | Backend/src/Persistence/RoomPersistence.js:112-134 | SUCCESS exactly when the id is fresh; the new room has the name, `users = {user_id}` and `tasks = []`. A taken id answers FAILED and the room is left unchanged. |
| RoomPersistence.AddNewRoommate | Backend/src/Persistence/RoomPersistence.js:141-157 | Sets the members to `users ∪ {id}` and keeps name and tasks. With no room it creates one holding only that member. Adding a present member changes nothing. |
| RoomPersistence.GetRoomUsers | Backend/src/Persistence/RoomPersistence.js:164-178 | Returns the member set when the room has one. Otherwise it throws (TypeError, or "Room doesn't have an user--Service Unavailable"). |
| RoomPersistence.DeleteRoom | Backend/src/Persistence/RoomPersistence.js:184-192 | Removes exactly that room's record. A second call changes nothing. |
| RoomPersistence.RemoveUserId | Backend/src/Persistence/RoomPersistence.js:199-217 | On an existing room, sets the members to `users − {user_id}` and touches no other field. On a missing room the conditional update fails, the error propagates and nothing changes. |
| RoomPersistence.AddTaskToRoom | Backend/src/Persistence/RoomPersistence.js:224-247 | SUCCESS exactly when the room and its list exist; the id is then appended after the earlier ids. Otherwise it answers FAILURE and nothing changes. |
| RoomPersistence.DeleteTaskFromRoom | Backend/src/Persistence/RoomPersistence.js:334-357 | Always answers FAILURE and writes nothing: the guard fails, or the store rejects a set DELETE on a list. |
| RoomPersistence.FetchTasks | Backend/src/Persistence/RoomPersistence.js:269-281 | The loop over the task ids builds exactly `Select`: the existing records with the wanted flag, in list order. |
| RoomPersistence.GetPendingTasks | Backend/src/Persistence/RoomPersistence.js:254-289 | Holds exactly the room's listed ids whose record exists with `complete == false`. It is sorted by due date. A missing room or list gives []. |
| RoomPersistence.GetCompletedTasks | Backend/src/Persistence/RoomPersistence.js:296-332 | The same as the pending listing, for `complete == true`. |
| RoomPersistence.ListTasks | Backend/src/Persistence/RoomPersistence.js:264-283 | The shared body of the two listings: it equals `Listing.TaskListing`, it is sorted by due date, and an item is in it iff its id is listed and its record has the flag. |
| Listing.TaskListing | Backend/src/Persistence/RoomPersistence.js:267-283 | A listing is the room's selected items (records that exist, with the wanted flag, in list order) sorted by due date: it is sorted, and it holds exactly the selected items (as a multiset). |
| Listing.Select | Backend/src/Persistence/RoomPersistence.js:269-281 | The filtered listing is never longer than the room's list. |
| Listing.SelectMember | Backend/src/Persistence/RoomPersistence.js:279 | An item is selected iff its id is listed, its record exists, the item carries that record, and the flag matches. |
| Listing.SelectPartition | Backend/src/Persistence/RoomPersistence.js:279 | Pending and completed together have exactly as many entries as there are listed ids with a record. |
| Listing.SelectDisjoint | Backend/src/Persistence/RoomPersistence.js:279 | No id is both pending and completed. An id without a record is in neither listing. |
| Listing.InsertByDue | Backend/src/Persistence/RoomPersistence.js:283 | One insertion step of the sort keeps every item and adds the new one (multiset). |
| Listing.SortByDue | Backend/src/Persistence/RoomPersistence.js:283 | Sorting is a permutation: the same multiset of items. |
| Listing.InsertByDueSorted | Backend/src/Persistence/RoomPersistence.js:283 | Inserting into a due-date-sorted list keeps it sorted. |
| Listing.SortByDueSorted | Backend/src/Persistence/RoomPersistence.js:283 | The sorted listing is in ascending due-date order. |
| Listing.ListedIff | Backend/src/Persistence/RoomPersistence.js:254-289 | `some(task => task.task_id === id)` on a listing holds iff the id is in the room's list, its record exists, and the flag matches. |
| Listing.DeletedTaskUnlisted | Backend/src/Handler/TaskHandler.js:180-182 | After the task record is deleted, its id is in neither listing, even though the room's list still holds it. |
| Listing.CompletionMovesTask | Backend/src/Handler/TaskHandler.js:265-268 | Marking a task completed removes it from the pending listing and puts it in the completed listing (when the room lists it). Every other id is in each listing after the change iff it was before. |
| TaskPersistence.GetTaskById | Backend/src/Persistence/TaskPersistence.js:87-101 | Returns the record exactly when it exists. Together with GenerateNewTask this gives the round trip: the stored fields come back with `complete == false`. |
| TaskPersistence.UpdateTask | Backend/src/Persistence/TaskPersistence.js:111-136 | SUCCESS iff the task exists. It overwrites description, assignee and due date and resets `complete` to false. An absent id answers FAILURE and creates nothing. |
| TaskPersistence.GenerateNewTask | Backend/src/Persistence/TaskPersistence.js:145-166 | SUCCESS iff the id is fresh; the fields are stored with `complete = false`. A duplicate answers FAILURE and the existing task is unchanged. |
| TaskPersistence.MarkCompleted | Backend/src/Persistence/TaskPersistence.js:173-194 | SUCCESS iff the task exists. It sets `complete` to true and changes no other field. It is idempotent. An absent id answers FAILURE and creates nothing. |
| TaskPersistence.DeleteTask | Backend/src/Persistence/TaskPersistence.js:201-215 | Removes exactly that key and always answers SUCCESS, even when the id was absent. |
| Text.LeadingSpaces | Backend/src/Handler/TaskHandler.js:111 | Counts the white space `trim()` drops at the front: every counted character is white space and the next one is not. |
| Text.Trim | Backend/src/Handler/TaskHandler.js:111-114 | The result is the infix of the input that starts right after its leading white space (counted by LeadingSpaces), and everything after that infix is white space. It has no white space at either end, and it is empty iff the input is all white space. |
| Text.ToLower | Backend/src/Handler/TaskHandler.js:112-113 | Keeps the length. Each upper-case ASCII letter becomes the letter 32 code units on (its lower-case form), and every other character is kept. So no upper-case ASCII letter is left. |
| Text.TrimLowerIsTrimThenLower | Backend/src/Handler/TaskHandler.js:112-113 | The normalisation of ids, which peels white space off either end and then lowers the rest, equals `ToLower(Trim(s))`, i.e. `s.trim().toLowerCase()`. |
| Text.TrimLowerEmpty | Backend/src/Handler/UserInfoHandler.js:75 | A normalised id is empty iff the raw id was all white space. |
| Text.DateOrder | Backend/src/Handler/TaskHandler.js:95 | For `yyyy-MM-dd` strings, string order is chronological order (yyyymmdd as a number). This holds both for the due-date check and for the sort. |
| UserInfoHandler.IsValidId | Backend/src/Handler/UserInfoHandler.js:59-64 | `#is_valid_id`: an id is valid iff it is not empty. NormalizedIdValid states what this means for a raw request id. |
| UserInfoHandler.NormalizedIdValid | Backend/src/Handler/UserInfoHandler.js:59-64 | `#is_valid_id` on a normalised id is false exactly when the raw id was all white space. |
| UserInfoHandler.CreateUserCheck | Backend/src/Handler/UserInfoHandler.js:73-79 | Gives 400 "Error Creating User- User id is invalid" iff the raw id is all white space. Otherwise it forwards the non-empty trimmed, lower-cased id. |
| UserInfoHandler.IsValidUser | Backend/src/Handler/UserInfoHandler.js:338-345 | True iff the user record exists. |
| UserInfoHandler.GetUserRoom | Backend/src/Handler/UserInfoHandler.js:94-119 | 400 for an invalid id. 404 for an unknown user. 200 "NA" without a room_id. Otherwise 200 with the room's name, or 500 when the room or its name is missing. |
| UserInfoHandler.GetUserNotification | Backend/src/Handler/UserInfoHandler.js:126-154 | Marks exactly the user's notification ids as read and changes nothing else. It answers one rendered entry per id, each id once, in iteration order. It keeps notification ownership consistent. |
| UserInfoHandler.LeaveUserRoom | Backend/src/Handler/UserInfoHandler.js:163-202 | Sole member: deletes the room and clears room_id. Shared room: removes just this user from the set and clears room_id. Other cases: 400/404/500 with nothing written. It preserves membership consistency and leaves the user roomless. |
| UserInfoHandler.GetUserWarning | Backend/src/Handler/UserInfoHandler.js:211-240 | Reads only. The warning is chosen solely by whether the room has exactly one member. |
| UserInfoHandler.GetRoommate | Backend/src/Handler/UserInfoHandler.js:249-278 | Answers "You have at least one roommate" whenever the room can be read, a sole member included. |
| UserInfoHandler.GetRoommatesHelper | Backend/src/Handler/UserInfoHandler.js:318-323 | Returns the member set of the user's room. Under membership consistency it contains the user and it succeeds for every user with a room_id. |
| UserInfoHandler.AreRoommates | Backend/src/Handler/UserInfoHandler.js:325-330 | True iff u2 is in u1's room's member set. Under consistency that is "same room_id", so a user is their own roommate. |
| UserInfoHandler.DeleteNotification | Backend/src/Handler/UserInfoHandler.js:354-388 | 400 for an empty user id or notification id. 404 for an unknown user or an id the user does not hold, with nothing written. Otherwise it deletes the record, removes the id from the user's set, and answers 200. It keeps ownership consistent. |
| Invariants.LeaveAsSoleMember | Backend/src/Handler/UserInfoHandler.js:181-188 | Deleting a sole member's room and clearing their room_id keeps membership consistent and leaves them roomless. |
| Invariants.LeaveSharedRoom | Backend/src/Handler/UserInfoHandler.js:190-196 | Removing one of several members keeps the room non-empty and membership consistent, and leaves that user roomless. |
| Invariants.DeleteNotificationKeeps | Backend/src/Handler/UserInfoHandler.js:376-378 | Deleting a held notification and dropping it from its owner's set keeps ownership consistent. |
| Invariants.DeletedTaskDangles | Backend/src/Persistence/RoomPersistence.js:340-355 | Deleting the record of an id that a room still lists, as delete_task does after the ignored FAILURE of `delete_task_from_room`, leaves an id without a record. So every successful delete breaks that invariant. |
| Invariants.MoreTasksKeepRefs | Backend/src/Handler/TaskHandler.js:138 | Adding task records keeps every listed id resolvable. |
| Invariants.AppendKeepsRefs | Backend/src/Handler/TaskHandler.js:141 | Appending the id of an existing task keeps every listed id resolvable. |
| TaskHandler.IsValidTaskName | Backend/src/Handler/TaskHandler.js:63-70 | `#is_valid_task_name`: a name is valid iff it is a non-empty string. TrimmedTaskNameValid states what this means for a raw name. |
| TaskHandler.TrimmedTaskNameValid | Backend/src/Handler/TaskHandler.js:63-70 | `#is_valid_task_name` of the trimmed name holds iff the raw name has a non-white-space character. |
| Text.IsDateShape | Backend/src/Handler/TaskHandler.js:79-83 | The regular expression `^\d{4}-\d{2}-\d{2}$`: exactly ten characters, '-' at positions 4 and 7, and ASCII digits everywhere else. |
| TaskHandler.IsValidDate | Backend/src/Handler/TaskHandler.js:77-96 | `#is_valid_date`, with the clock and the parser as inputs: the string has the date shape, `new Date` parses it, and it is not before `today`, the first date `#is_valid_date` accepts. |
| TaskHandler.ValidDateNotPast | Backend/src/Handler/TaskHandler.js:77-96 | A date is valid iff it has the `yyyy-MM-dd` shape, parses, and is not before today in the calendar. |
| TaskHandler.CreateKeepsRefs | Backend/src/Handler/TaskHandler.js:137-143 | The Task put followed by the room append (each as create_task leaves the table) keeps every listed id resolvable. |
| TaskHandler.CreatedTaskPending | Backend/src/Handler/TaskHandler.js:137-143 | When the id was fresh and the creator's room has a list, the new task is in the room's pending listing. |
| TaskHandler.PutAndAppend | Backend/src/Handler/TaskHandler.js:137-143 | The two writes of a successful create: `generate_new_task` answers SUCCESS iff the id is fresh, the Task table becomes the put, and the Room table becomes the append. Both answers are ignored. It keeps listed ids resolvable and puts a fresh task in the pending listing. |
| TaskHandler.CreateTask | Backend/src/Handler/TaskHandler.js:105-148 | An invalid user gives 403 before an invalid name or date gives 403; neither writes anything. Otherwise the task is stored with `complete = false` (a taken id keeps the old task) and the id is appended to the creator's room list. It answers 200. A fresh task lands in the pending listing, and listed ids stay resolvable. |
| TaskHandler.DeleteTask | Backend/src/Handler/TaskHandler.js:155-188 | 403 for an unknown user. 500 for a user without a room. 404 with nothing written unless the id is in the completed listing. Otherwise the record is deleted and it answers 200. The id stays in the room's list without a record, so it is in neither listing (see Invariants.DeletedTaskDangles). |
| TaskHandler.EditTask | Backend/src/Handler/TaskHandler.js:195-232 | The same 403 checks in the same order. Then the fields are overwritten with `complete` reset to false, and it answers 200 whatever `update_task` returned. |
| TaskHandler.MarkCompleted | Backend/src/Handler/TaskHandler.js:239-277 | 403 for an unknown user. 500 for a user without a room. 404 with nothing written unless the id is pending-listed. Otherwise the task becomes complete, leaves the pending listing for the completed one, and it answers 200. |

## Left out

- UserPersistence and NotificationPersistence are not part of this model.
  - `get_user`, `get_room_id`, `remove_room_id`, `get_notification` and `update_notification_set` (module `UserPersistence`) are plain table lookups and single-field writes.
  - `update_notification_status`, `get_msg_type` and `delete_notification` (module `NotificationPersistence`) are the same.
  - In particular, `get_room_id` of an unknown user is taken to answer `undefined` rather than throw.
- `create_user` past its validation: `save_new_user` is not part of this model.
- `get_user_roommates` (outside the modelled set of handlers), Services.js (replaced by the single `Store`), the routers and the frontend.
- The DynamoDB client, credentials, logging, and store or network failures. No call fails except in the ways described above.
- Concurrency: each request runs alone, start to finish.
- Text.ToLower: only ASCII letters are lowered; Unicode case mapping is not modelled.
- Text.LexLe: `localeCompare` is modelled as code-unit order. The two agree on strings of ASCII digits and '-', which is what the date validation admits.
- TaskHandler.IsValidDate: the clock and the Date parser are inputs. `parses` says whether `new Date` accepts the string; calendar validity is not modelled beyond that. `today` is the first date `#is_valid_date` accepts, as `yyyy-MM-dd`. `new Date(dateString)` reads a date-only string as UTC midnight, and it is compared with local midnight. So `today` is the current local date at or east of UTC, and the next day west of UTC. West of UTC, today's own date is therefore refused, although the JSDoc promises "today or in the future".
- uuidv4() is an input: the `taskId` parameter of TaskHandler.CreateTask.
- UserInfoHandler.GetUserNotification: the iteration order of the JavaScript Set is not modelled. The order is any enumeration of the set, returned as a ghost sequence.
- A request missing a body field (a TypeError caught as 500) is not modelled; every field is a string.
- The rejected Promise that the un-awaited `areRoommates` can leave behind is not modelled.
- An empty-string key refused by DynamoDB is not modelled. Empty ids are stopped by validation in the user handlers only.
