/** The (status, body) pair every handler answers with. */
module Http {
  import opened Tables

  /** The JSON body: a `message`, a `room_name`, or the `All_Notifications`
      list of a notification listing. */
  datatype Body = Message(text: string) | RoomName(name: string) | Notifications(items: seq<Option<Rendered>>)

  datatype Response = Response(status: int, body: Body)
}
