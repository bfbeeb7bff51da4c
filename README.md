# Lobby server: rooms and sessions

A model of the core of a realtime lobby server (a socket.io server written in
JavaScript). Clients connect, get a reconnection-durable session, create or
join rooms addressed by a six-character code, and the room's owner starts the
game, which deals each player a role. The model covers:

- the session store (`sessionStore.js`): an insertion-ordered upsert map and
  the `mapSession` record decoder (module `SessionStore`);
- the room records, the client-visible projection `gameState`, and the effect
  of each operation on one room (module `Rooms`);
- the `rooms` registry: lookups by member socket, by code and by key, room-code
  generation, the ordered checks of the join and start handlers, and the
  registry invariant (module `Registry`);
- the handshake middleware, the connection handler with its reconnection
  replay, and the `createRoom`, `joinRoom`, `startGame`, `leaveRoom` and
  `disconnect` handlers, as methods of a `Server` class whose state is the room
  registry, the session store and the log of every emitted event (module
  `Lobby`);
- scenarios driven through the model (module `Scenarios`).

How the JavaScript is represented:

- `rooms` is an object keyed by fresh uuids, so it iterates in insertion
  order; it is a `seq<Room>` in that order, each room carrying its key.
  Adding a key appends, `delete` removes the entry, and a room's fields are
  updated by replacing that entry.
- A JavaScript `Map` keeps insertion order, so `InMemorySessionStore` holds a
  `map` and the sequence of its keys.
- Sockets are objects whose `sessionID`, `roomId` and `username` the handlers
  set. Missing values (`undefined`, `null`) are `None`, and JavaScript
  truthiness of a string is `Base.Truthy`.
- Every `emit` appends an `Event` to `Server.sent`. The event records its
  target (one socket, or every socket joined to a room), its name and its
  payload. The postconditions therefore say which message went to whom.
- A room's `state` 0 is `Lobby` and 1 is `Started`.
- `uuid.v1()` is an id supplied as a parameter. `ShortUniqueId` is a stream
  `gen: nat -> Code`, whose n-th call gives `gen(n)`. `Math.random` is an
  arbitrary choice of an element of `ROLES`.

The registry invariant `Registry.RegistryOk` holds before and after every
handler. It says:

- room keys and room codes are unique among live rooms;
- every room has at least one player, so a room exists exactly while it has
  players;
- the owner is one of the room's players;
- no socket is listed twice in a room;
- no role is set while a room is in the lobby.

Behaviour of the code worth knowing, which the model keeps:

- `startGame` does not check whether the room has already started, so it
  deals the roles again (index.js:152-176).
- The capacity check ignores the room's state, so players can join a started
  room (index.js:214).
- When a session id is not found, the handshake emits `session_expired` and
  lets the connection through without minting a session id or setting a name
  (index.js:113-114). Its session is then saved under the missing key.
- The reconnection replay appends the player with no role, even into a
  started room (`Rooms.ReplayIntoStartedRoomShowsNoRole`). It uses the
  handshake username, not the name given when joining. It does not check
  capacity, so a room can grow past five players this way
  (`Rooms.ReplayIgnoresCapacity`). It broadcasts to the whole room, not to the
  reconnecting socket alone (index.js:137-149).
- `leaveRoom` clears the socket's cached room but does not save the session
  (index.js:78-101).

## Model

| member | source | states |
|---|---|---|
| `SessionStore.InMemorySessionStore.constructor` | sessionStore.js:2-4 | a new store holds no session |
| `SessionStore.InMemorySessionStore.FindSession` | sessionStore.js:6-8 | the record last saved under the id; nothing for an id never saved |
| `SessionStore.InMemorySessionStore.SaveSession` | sessionStore.js:10-12 | afterwards `FindSession(id)` is the saved record; the record is replaced whole; every other id's record is unchanged; a new id goes last in the iteration order |
| `SessionStore.InMemorySessionStore.FindAllSessions` | sessionStore.js:14-16 | one value per stored id, the latest saved for it, in insertion order; as many values as stored ids |
| `SessionStore.MapSession` | sessionStore.js:20-21 | nothing exactly when `id` is falsy; otherwise the fields, with `connected` true iff the stored string is "true" |
| `Rooms.FindFirst` | index.js:31-37 | `Array.prototype.find` as a position: the first element satisfying the predicate; nothing iff none does |
| `Rooms.FindPlayer` | index.js:61-63 | the position of the socket's first entry, or nothing iff the socket is not listed |
| `Rooms.GameState` | index.js:39-49 | the room's fields and its players with the same length, order, socket ids and names; no role unless the room has started, the player's role once it has |
| `Rooms.NewRoom` | index.js:185-193 | the created room before its creator joins it: the fresh key and code, the creator as owner, the lobby state and no player; `Rooms.CreateKeepsRoomOk` proves the room once joined |
| `Rooms.Join` | index.js:61-69 | joining keeps the room's key, code, state and owner, lists the socket afterwards, keeps every existing socket at its position and adds at most one player |
| `Rooms.RemovePlayer` | index.js:87 | keeps exactly the players of other sockets and never grows the list |
| `Rooms.RemovePlayerAbsent` | index.js:87 | filtering out a socket that is not listed changes nothing |
| `Rooms.RemovePlayerAt` | index.js:87 | filtering out a listed socket removes exactly its entry and keeps the others in their order |
| `Rooms.RemovePlayerKeepsDistinct` | index.js:87 | filtering keeps the list free of duplicate sockets |
| `Rooms.RemovePlayerMembers` | index.js:87 | after filtering, the leaving socket is not listed and every other socket is listed iff it was before |
| `Rooms.AssignRoles` | index.js:170-173 | every player gets a role from `ROLES`; socket ids, names and order are kept |
| `Rooms.JoinRenamesMember` | index.js:61-66 | joining as a member changes only that member's name: same count, sockets, roles and order |
| `Rooms.JoinAppendsNewcomer` | index.js:67-69 | joining as a non-member appends exactly one player with no role |
| `Rooms.JoinKeepsRoomOk` | index.js:60-69 | joining keeps the room invariant, lists the socket, changes nothing but the players, and adds at most one |
| `Rooms.CreateKeepsRoomOk` | index.js:185-196 | a created room holds just its creator, who owns it, in the lobby |
| `Rooms.Depart` | index.js:87-98 | the room is deleted iff every entry is the leaving socket's; a kept room has the same key, code and state, no longer lists the socket, and its owner is a remaining player or the old owner |
| `Rooms.DepartDeletesOnlyLast` | index.js:87-94 | leaving deletes the room iff the leaver was its only player |
| `Rooms.DepartKeepsRoomOk` | index.js:86-98 | when players remain, the room invariant holds without the leaver, and the owner is the first remaining player if the owner left, the old owner otherwise |
| `Rooms.DepartKeepsOrder` | index.js:87 | a member's departure removes its entry only and keeps everybody else in order; a non-member's departure changes no player |
| `Rooms.StartKeepsRoomOk` | index.js:167-175 | starting keeps the room invariant, and the projection then shows every player a role from `ROLES` |
| `Rooms.Replay` | index.js:140-146 | the replay keeps the room's key, code, state and owner, lists the socket, keeps the existing players as a prefix and adds at most one |
| `Rooms.ReplayKeepsRoomOk` | index.js:140-146 | the replay keeps the room invariant and lists the socket; the players already there are untouched |
| `Rooms.ReplayIgnoresCapacity` | index.js:140-146 | the replay adds a sixth player to a full room |
| `Rooms.ReplayIntoStartedRoomShowsNoRole` | index.js:141-149 | a player replayed into a started room is shown with no role |
| `Registry.FindRoomBySocketId` | index.js:31-34 | the first room in insertion order listing the socket; nothing iff no room lists it |
| `Registry.FindRoomByCode` | index.js:36-37 | the first room in insertion order with that code; nothing iff no live room has it |
| `Registry.RoomById` | index.js:153 | the room stored under the key, found iff some room has that key |
| `Registry.GenerateRoomCode` | index.js:20-29 | the first drawn candidate that is not the code of a live room |
| `Registry.JoinCheck` | index.js:201-217 | checks in order: already in a room, no room with the code, room full; only the first failure is reported; an admission names a room with the code and fewer than five players |
| `Registry.JoinCheckByCode` | index.js:208-217 | with unique codes, the room with the code alone decides between full and admitted |
| `Registry.JoinNeverExceedsCapacity` | index.js:214-219 | a successful join appends the newcomer last, without a role, and never exceeds five players |
| `Registry.StartCheck` | index.js:152-165 | a no-op iff the socket owns no room under its cached key; a failure carrying the count below two players; otherwise a start of the owner's room |
| `Registry.ReplaceKeepsRegistryOk` | index.js:167-173 | replacing a room by a well-formed one with the same key and code keeps the registry invariant |
| `Registry.DeleteKeepsRegistryOk` | index.js:91-94 | deleting a room keeps the registry invariant |
| `Registry.CreateKeepsRegistryOk` | index.js:185-196 | adding the created room under a fresh key with a free code keeps the invariant, so codes stay unique among live rooms |
| `Registry.LeaveKeepsRegistryOk` | index.js:86-98 | leaving deletes the room iff it had one player; otherwise it replaces the room by its successor; the registry invariant holds |
| `Lobby.Leave` | index.js:78-101 | always acknowledges the socket first; clears the cached room iff the socket is in some room; removes at most one room |
| `Lobby.LeaveKeepsInvariant` | index.js:78-101 | leaving always acknowledges the socket; for a socket in no room nothing else happens; otherwise the cached room is cleared and only its room changes: deleted with no broadcast iff it was the last player, else without the leaver and broadcast |
| `Lobby.Socket.constructor` | index.js:103-104 | a connection reaches the handshake with no session id, cached room or name |
| `Lobby.Server.constructor` | index.js:13-16 | the server starts with no room, no event and an empty session store |
| `Lobby.Server.SaveSocketSession` | index.js:51-58 | the socket's current fields are saved under its session id, which goes last in the store's order if it is new |
| `Lobby.Server.JoinRoom` | index.js:60-76 | the room becomes `Join` of itself; the socket and its saved session record the room; the room is broadcast |
| `Lobby.Server.LeaveRoom` | index.js:78-101 | the registry, the events and the socket's cached room are those `Leave` gives; the registry invariant is kept |
| `Lobby.Server.Handshake` | index.js:103-125 | accepted iff a session id or a username is truthy; a found session restores room and name; an unknown one only emits `session_expired`; otherwise the new session id and the username are set |
| `Lobby.Server.OnConnection` | index.js:127-150 | the session is saved as connected and its id sent; if the cached room is live, the socket is replayed into it and the room broadcast; nothing else changes |
| `Lobby.Server.OnStartGame` | index.js:152-176 | nothing for a non-owner; a failure with the count and no change below two players; otherwise only the owner's room changes, it is started with fresh roles, and it is broadcast |
| `Lobby.Server.OnCreateRoom` | index.js:178-199 | refused with "player already in a room" and no change; otherwise a room with a fresh key, the first free drawn code, the creator as owner and sole player, then broadcast and acknowledged |
| `Lobby.Server.OnJoinRoom` | index.js:201-220 | a refusal sends only the first failing check's message and changes nothing; an admission appends the socket to that room only, within five players, and broadcasts it |
| `Lobby.Server.OnLeaveRoom` | index.js:222-224 | the effect of `Leave`, keeping the registry invariant |
| `Lobby.Server.OnDisconnect` | index.js:226-230 | the session is saved as disconnected, still holding the cached room, and then the socket leaves as with `Leave` |
| `Scenarios.TwoPlayersCanStart` | index.js:152-176 | create(A), join(B) with the code is admitted; A may start; every player is then shown a role |
| `Scenarios.SoloStartFails` | index.js:158-165 | create(A) then start by A fails reporting one player, and the room stays in the lobby |
| `Scenarios.CreateThenJoin` | index.js:185-219 | after create(A) and join(B) the room lists A then B, owned by A |
| `Scenarios.ReconnectIntoLiveRoom` | index.js:137-146 | a player who drops out of a two-player room is listed again on reconnection, after the one who stayed |
| `Scenarios.SecondPlayerLeaves` | index.js:87-98 | the second player's departure from a two-player room leaves the first, who still owns it |
| `Scenarios.ReconnectAfterRoomDeleted` | index.js:91-94 | a player alone in a room deletes it by leaving, so reconnection finds no room |
| `Scenarios.Connect` | index.js:117-130 | a connection with a username and no session id gets the new session id and is in no room |
| `Scenarios.SetUpPair` | index.js:178-220 | two connections through the handlers give one room listing "alice" and "bobby", owned by "alice" |

## Left out

- The socket.io transport is left out: `socket.join`, `socket.leave`, the delivery of `io.to(room).emit` to a room's sockets, the CORS settings, `PORT` and `httpServer.listen`. An event addressed to a room is recorded with the room's key.
- Each handler is one atomic step. The `async`/`await` of the handshake and any interleaving between handlers are not modelled.
- `uuid.v1()` is left out. `Lobby.Server.OnCreateRoom` takes the new room key as a parameter and requires it to be fresh. `Lobby.Server.Handshake` takes the new session id as a parameter.
- `Registry.GenerateRoomCode`: termination is not proved for an arbitrary random source. It requires that some draw of the generator is free, and then it stops at the first free draw. `Lobby.Server.OnCreateRoom` passes on this requirement.
- The format of the candidate codes (six characters from the hexadecimal dictionary) is the library's concern and is not modelled. Codes are plain strings.
- `Math.random` is left out. Each role is an arbitrary element of `ROLES`; there is no probability distribution.
- `Date.now()` is left out, and so are the room fields `create_at` and `started_at`. `console.log` is left out.
- `Lobby.Server.OnStartGame`: the `startGameFailed` message text is left out. Its payload carries the player count that the text reports.
- The unused `SESSION_TTL` constant is left out. The store has no expiry.
- Rooms are values held in the registry. The source's room objects are reachable only through `rooms`, so aliasing between them is not modelled.
- Malformed client payloads are not modelled. Handler arguments are typed values (`Pseudo`, `Code`), so the TypeError that destructuring a missing `joinRoom` payload throws (index.js:201) has no counterpart.
- Socket ids are not assumed unique. Invariants about one socket appearing in several rooms are therefore not claimed.
