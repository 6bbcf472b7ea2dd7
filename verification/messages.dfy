/**
 * Identifiers and message shapes shared by the room servers.
 *
 * Every message is kept abstract: the servers render each one to a JSON or
 * plain-text string before pushing it on a channel, and that rendering is not
 * part of this model.
 */
module Messages {

  /** A room name, as taken from the request path. */
  type RoomId = string

  /** A connection id; the servers mint a fresh random UUID per connection. */
  type Uuid = nat

  type ClientId = Uuid

  type WatcherId = Uuid

  datatype Option<+T> = None | Some(value: T)

  /** The error text handed to a client turned away from a full room. */
  const RoomFullMessage: string := "Room is full (max 2 players)"

  /** What a client's outbound channel carries. */
  datatype Msg =
      /** The join acknowledgement record of the multi-room server. */
    | JoinRoomResponse(success: bool, roomId: Option<RoomId>, errorMessage: Option<string>)
      /** A text frame relayed verbatim from another client (or from oneself). */
    | Text(body: string)
      /** Multi-room leave notice: "Client {client} left room {room}". */
    | LeftRoom(client: ClientId, room: RoomId)
      /** Single-room join notice: "Client {client} joined the room". */
    | JoinedTheRoom(client: ClientId)
      /** Single-room leave notice: "Client {client} left the room". */
    | LeftTheRoom(client: ClientId)
      /** The room census a watcher is sent. */
    | RoomList(rooms: seq<RoomInfo>)

  /** One line of the room census sent to watchers. */
  datatype RoomInfo = RoomInfo(roomId: RoomId, clientCount: nat)
}
