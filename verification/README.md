# Room registry of a rock-paper-scissors WebSocket server

This project models, in Dafny, the room bookkeeping of a small Rust
WebSocket server. Clients connect to a room, every text frame they send is
fanned out to the room (the multi-room server includes the sender, the
single-room server skips it), and separate "watcher" connections receive a
census of the rooms. All shared state sits behind one mutex, so
each locked block is one atomic step. With the sockets and tasks removed,
what remains is table-and-queue manipulation:

- **Multi-room server** (`src/server/join_room.rs`): a table
  `room id -> (client id -> outbound queue)`. A join creates the room lazily,
  turns the joiner away when the room already has two clients, and otherwise
  adds it and sends one success `JoinRoomResponse` to every other member. A
  received text frame goes to every member of the sender's room, the sender
  included. A disconnect removes the client, sends a leave notice to each
  remaining member and deletes the room once it is empty.
  `RoomTable` states each of these as a function on the table value.
  `Registry.RoomRegistry` is the shared state as a class. Its methods run the
  same steps in place and are proved equal to those functions. Each method
  keeps the invariant that every room has one or two clients.
- **Single-room server** (`src/server.rs`): one map `client id -> queue`
  with no capacity limit. On join the others are told
  "Client {id} joined the room". Text is relayed to everyone except the
  sender. A disconnect is a removal followed by a separate leave broadcast,
  which takes the lock a second time. `SingleRoom` has the functions and
  the class `Room`.
- **Room watchers** (`src/server/rooms_stream.rs`): the census is
  `(room id, client count)` for each room, taken in the table's iteration
  order. It is the pure function `Census.Census`. Registering and removing a
  watcher are methods of the same `RoomRegistry` class that holds the rooms.
- Fan-out (`FanOut.Deliver`) is the loop that walks a client map and pushes
  one message on each channel, optionally skipping one id. It is proved
  equal to `FanOut.Delivered`.

"Sending to a client" is appending to that client's queue. Every message is
an abstract `Messages.Msg` value rather than its JSON or text rendering.
Client and watcher ids are UUIDs minted per connection. Here they are
natural numbers, and a `requires` says each new one is fresh.

The shared-state types are not in the source files. `join_room.rs` uses a
`Rooms` type and `rooms_stream.rs` a `SharedState` with `.rooms[..].clients`
and `.room_watchers`, but `src/server/server.rs` defines only the
single-room `Room`. The model rebuilds them from their uses: one room table
plus one watcher map, behind one lock.

What the code does not do, and the model therefore does not either:
- the code never sends anything on a `room_watchers` channel (the first
  census goes directly on the socket), so watchers get no update after
  membership changes;
- the code has no game state, start/move commands or round resolution;
- the join acknowledgement carries no client id;
- every text frame is broadcast as is (there is no command decoding);
- the capacity is the literal 2 (`RoomTable.MaxPlayers`).

## Model

| member | source | states |
|---|---|---|
| FanOut.Deliver | src/server/join_room.rs:42-53 | visiting the clients one by one and pushing the message to each id not skipped yields exactly `Delivered`: every non-skipped queue gains the message once, skipped queues and the key set are unchanged |
| RoomTable.Join | src/server/join_room.rs:23-54 | the join is refused exactly when the room exists with at least 2 clients; a refusal leaves the table unchanged and replies once with `success=false`, the room id and "Room is full (max 2 players)"; otherwise the table becomes `Admit` and no reply is sent |
| RoomTable.Admit | src/server/join_room.rs:25-53 | the room is created when absent; its client set becomes the old one plus the joiner; the joiner's queue is empty; each pre-existing member gets exactly one `success=true` response for that room; every other room is unchanged |
| RoomTable.Broadcast | src/server/join_room.rs:74-79 | every member of the room, sender included, gets the text once; membership and all other rooms are unchanged; an absent room means no change |
| RoomTable.Leave | src/server/join_room.rs:91-104 | an absent room means no change; otherwise only the leaver is removed, each remaining member gets exactly one leave notice for that client and room, other rooms are unchanged, and the room entry is deleted exactly when no client remains |
| RoomTable.JoinKeepsWellformed | src/server/join_room.rs:25-39 | a join keeps every room non-empty and at most 2 clients |
| RoomTable.BroadcastKeepsWellformed | src/server/join_room.rs:74-79 | a broadcast keeps every room non-empty and at most 2 clients |
| RoomTable.LeaveKeepsWellformed | src/server/join_room.rs:91-104 | a leave keeps every room within capacity and leaves no empty room in the table |
| RoomTable.JoinThenLeaveRestoresMembers | src/server/join_room.rs:25-102 | an admitted join of a fresh client followed by its leave restores which clients are in which room, deleting a room the join created |
| Census.Census | src/server/rooms_stream.rs:23-27 | the census has one entry per listed room, in iteration order, and each entry's count is that room's number of clients |
| Census.OneEntryPerRoom | src/server/rooms_stream.rs:23-27 | taken in an order that enumerates the table, the census has exactly as many entries as there are rooms, names every room exactly once, and pairs each room with its client count |
| Census.CountsWithinCapacity | src/server/rooms_stream.rs:26 | in a well-formed table every census count is 1 or 2 |
| Census.Enumerate | src/server/rooms_stream.rs:24-25 | iterating a key set yields every key exactly once and nothing else |
| Registry.RoomRegistry.Join | src/server/join_room.rs:23-54 | the join step in place: the new table and the reply are those of `RoomTable.Join`, the invariant holds, watchers are unchanged |
| Registry.RoomRegistry.Broadcast | src/server/join_room.rs:74-79 | the broadcast step in place: the new table is `RoomTable.Broadcast` of the old one, the invariant holds, watchers are unchanged |
| Registry.RoomRegistry.Leave | src/server/join_room.rs:91-104 | the disconnect cleanup in place: the new table is `RoomTable.Leave` of the old one, the invariant holds, watchers are unchanged |
| Registry.RoomRegistry.Snapshot | src/server/rooms_stream.rs:22-27 | the census lists every room exactly once with its client count; it changes neither rooms nor watchers |
| Registry.RoomRegistry.RegisterWatcher | src/server/rooms_stream.rs:36-37 | adds exactly the watcher id with an empty queue; rooms are unchanged |
| Registry.RoomRegistry.UnregisterWatcher | src/server/rooms_stream.rs:62-63 | removes exactly the watcher id; rooms are unchanged |
| Registry.RoomRegistry.Subscribe | src/server/rooms_stream.rs:20-37 | the watcher is handed a full census; it is registered if and only if handing it over succeeded; rooms are unchanged |
| Registry.RoomRegistry.WatchUntilDisconnect | src/server/rooms_stream.rs:20-63 | a whole watcher connection (census, registration if the first send succeeded, removal at disconnect) hands over a full census and leaves both the watcher map and the rooms as they were |
| Registry.RegisterThenUnregisterRestores | src/server/rooms_stream.rs:37-63 | registering a fresh watcher and then removing it gives back the original watcher map |
| SingleRoom.Joined | src/server.rs:52-62 | the join always succeeds: the key set grows by exactly the joiner, whose queue is empty, and every other client gets exactly one "joined the room" notice |
| SingleRoom.JoinGrowsByOne | src/server.rs:53-54 | joining with a fresh id grows the room by exactly one client |
| SingleRoom.Relayed | src/server.rs:81-86 | every client except the sender gets the text once; the sender's queue and the key set are unchanged |
| SingleRoom.Removed | src/server.rs:98 | exactly the leaver's entry is removed; every other entry and its queue is unchanged |
| SingleRoom.AnnouncedLeft | src/server.rs:102-105 | every client present gets exactly one "left the room" notice; the key set is unchanged |
| SingleRoom.LeaveNotifiesEachRemainingOnce | src/server.rs:98-105 | removal then announcement: the leaver is gone and gets nothing, and every remaining client gets exactly one leave notice |
| SingleRoom.InterleavedJoinSeesForeignLeave | src/server.rs:98-105 | because the leave takes the lock twice, a client that joins between removal and announcement receives a leave notice for a client it was never in the room with |
| SingleRoom.JoinThenLeaveRestoresMembers | src/server.rs:54-98 | a fresh join followed by the same client's leave restores the set of clients |
| SingleRoom.Room.constructor | src/server.rs:17 | the room starts with no clients |
| SingleRoom.Room.Join | src/server.rs:52-62 | the join block in place: the clients become `Joined` of the old ones |
| SingleRoom.Room.Relay | src/server.rs:81-86 | the relay block in place: the clients become `Relayed` of the old ones |
| SingleRoom.Room.Remove | src/server.rs:98 | the first lock of a disconnect: the clients become `Removed` of the old ones |
| SingleRoom.Room.AnnounceLeft | src/server.rs:102-105 | the second lock of a disconnect: the clients become `AnnouncedLeft` of the old ones |
| SingleRoom.Room.Leave | src/server.rs:98-105 | a disconnect with nothing in between its two lock acquisitions: remove, then announce |

## Left out

- Transport: the WebSocket upgrade, splitting the socket, text and close framing, and the awaited socket sends are I/O. Queue contents stand for what the outbound task would write. The full-room reply is a return value. The success of the first census send is a parameter of `Subscribe`.
- Concurrency: the racing send and receive tasks, `tokio::select!`, and the mutex itself are not modelled. Each locked block is one method. A disconnect is an explicit `Leave` call. The single-room server's two-lock leave is two methods, and `InterleavedJoinSeesForeignLeave` shows one interleaving between them.
- UUID generation is random: ids are parameters, and freshness is a precondition.
- JSON serialisation is not modelled, nor what happens when it fails: on the multi-room join path (the full-room reply and each success notice) a failed serialisation drops that one message, and the census path sends `"{}"` in place of the census. The leave notices and the single-room notices are plain formatted text and involve no serialisation. Messages are abstract values, and a push to a queue always succeeds. Errors from `client_tx.send` are ignored in the code and never happen in the model.
- Logging (`println!`) and the router and listener startup in `src/server/server.rs` and `src/server.rs` are left out.
- Pushing census updates to watchers after membership changes: the code never sends on a watcher's channel, so watcher queues stay empty (they are typed to carry `RoomList` messages).
- The initial state of the multi-room shared state is not shown in the source. `Registry.RoomRegistry.constructor` starts with no rooms and no watchers.
- Census.Census: the iteration order of the hash map is unspecified. The census takes it as a parameter, and `Snapshot` picks an order nondeterministically.
- No game, move or round-resolution logic exists in the modelled code, so none is modelled.
