/** The lobby server's connection handling: the handshake middleware, the
    connection handler with its reconnection replay, and the room handlers.
    Each handler is one atomic step over the server's state; every message the
    server emits is appended to `sent`, addressed to one socket or to a room. */
module Lobby {
  import opened Base
  import opened Rooms
  import opened Registry
  import opened SessionStore

  type SessionId = string

  /** A client connection: its transport id and the fields the server sets on
      it. */
  class Socket {
    const id: SocketId
    var sessionID: Option<SessionId>
    var roomId: Option<RoomId>
    var username: Pseudo

    constructor (id: SocketId)
      ensures this.id == id && sessionID == None && roomId == None && username == None
    {
      this.id := id;
      sessionID := None;
      roomId := None;
      username := None;
    }
  }

  /** The record `saveSocketSession` stores. */
  datatype Session = Session(socketId: SocketId, roomId: Option<RoomId>, username: Pseudo, connected: bool)

  datatype Target = ToSocket(socketId: SocketId) | ToRoom(roomId: RoomId)

  /** `PlayerCount` stands for the `startGameFailed` text, which reports the
      number of players. */
  datatype Payload =
    | NoPayload
    | Text(text: string)
    | PlayerCount(count: nat)
    | SessionKeys(sessionID: Option<SessionId>, id: SocketId)
    | View(view: RoomView)

  datatype Event = Event(target: Target, name: string, payload: Payload)

  function LeaveAck(sid: SocketId): Event {
    Event(ToSocket(sid), "leaveRoom", NoPayload)
  }

  function UpdateRoom(room: Room): Event {
    Event(ToRoom(room.id), "updateRoom", View(GameState(room)))
  }

  /** What `leaveRoom` does to the registry and which events it emits;
      `clears` says whether the socket's cached room is reset. */
  datatype LeaveOutcome = LeaveOutcome(rooms: seq<Room>, events: seq<Event>, clears: bool)

  function Leave(rooms: seq<Room>, sid: SocketId): (out: LeaveOutcome)
    ensures |out.events| >= 1 && out.events[0] == LeaveAck(sid)
    ensures out.clears <==> InSomeRoom(rooms, sid)
    ensures |rooms| - 1 <= |out.rooms| <= |rooms|
  {
    match FindRoomBySocketId(rooms, sid)
    case None => LeaveOutcome(rooms, [LeaveAck(sid)], false)
    case Some(i) =>
      match Depart(rooms[i], sid)
      case None => LeaveOutcome(rooms[..i] + rooms[i + 1..], [LeaveAck(sid)], true)
      case Some(room) => LeaveOutcome(rooms[i := room], [LeaveAck(sid), UpdateRoom(room)], true)
  }

  /** `leaveRoom` always acknowledges; a socket in no room changes nothing.
      Otherwise only the socket's room changes: it is deleted exactly when the
      socket was its last player, else its remaining players are told, and the
      registry invariant is kept. */
  lemma LeaveKeepsInvariant(rooms: seq<Room>, sid: SocketId)
    requires RegistryOk(rooms)
    ensures var out := Leave(rooms, sid);
      && RegistryOk(out.rooms)
      && |out.events| >= 1 && out.events[0] == LeaveAck(sid)
      && (!InSomeRoom(rooms, sid) ==> out.rooms == rooms && out.events == [LeaveAck(sid)] && !out.clears)
      && (InSomeRoom(rooms, sid) ==>
            exists i | 0 <= i < |rooms| :: sid in SocketIds(rooms[i].players) &&
              out.clears &&
              if |rooms[i].players| == 1 then out.rooms == rooms[..i] + rooms[i + 1..] && out.events == [LeaveAck(sid)]
              else |out.rooms| == |rooms| && out.rooms == rooms[i := out.rooms[i]] &&
                   sid !in SocketIds(out.rooms[i].players) && out.events == [LeaveAck(sid), UpdateRoom(out.rooms[i])])
  {
    match FindRoomBySocketId(rooms, sid)
    case None =>
    case Some(i) =>
      LeaveKeepsRegistryOk(rooms, i, sid);
      if Depart(rooms[i], sid).Some? {
        DepartKeepsRoomOk(rooms[i], sid);
      }
  }

  class Server {
    /** `rooms`, in insertion order. */
    var rooms: seq<Room>
    const sessionStore: InMemorySessionStore<Option<SessionId>, Session>
    /** Every event emitted so far, oldest first. */
    var sent: seq<Event>

    ghost predicate Valid()
      reads this, sessionStore
    {
      sessionStore.Valid() && RegistryOk(rooms)
    }

    constructor ()
      ensures Valid() && fresh(sessionStore)
      ensures rooms == [] && sent == [] && sessionStore.sessions == map[] && sessionStore.keys == []
    {
      rooms := [];
      sent := [];
      sessionStore := new InMemorySessionStore();
    }

    /** `saveSocketSession`: stores the socket's current fields under its
        session id (which may be absent). */
    method SaveSocketSession(socket: Socket, connected: bool)
      requires sessionStore.Valid()
      modifies sessionStore
      ensures sessionStore.Valid()
      ensures sessionStore.sessions ==
        old(sessionStore.sessions)[socket.sessionID := Session(socket.id, socket.roomId, socket.username, connected)]
      ensures sessionStore.keys == Inserted(old(sessionStore.keys), socket.sessionID)
    {
      sessionStore.SaveSession(socket.sessionID, Session(socket.id, socket.roomId, socket.username, connected));
    }

    /** The `joinRoom` helper: renames or appends the socket in room `i`,
        records the room on the socket and in its session, and broadcasts the
        room. */
    method JoinRoom(pseudo: Pseudo, socket: Socket, i: nat)
      requires sessionStore.Valid()
      requires i < |rooms|
      modifies this`rooms, this`sent, socket`roomId, sessionStore
      ensures sessionStore.Valid()
      ensures rooms == old(rooms)[i := Join(old(rooms)[i], socket.id, pseudo)]
      ensures socket.roomId == Some(rooms[i].id)
      ensures sessionStore.sessions ==
        old(sessionStore.sessions)[socket.sessionID := Session(socket.id, Some(rooms[i].id), socket.username, true)]
      ensures sessionStore.keys == Inserted(old(sessionStore.keys), socket.sessionID)
      ensures sent == old(sent) + [UpdateRoom(rooms[i])]
    {
      var room := rooms[i];
      var existing := FindPlayer(room.players, socket.id);
      if existing.Some? {
        var k := existing.value;
        room := room.(players := room.players[k := room.players[k].(pseudo := pseudo)]);
      } else {
        room := room.(players := room.players + [Player(socket.id, pseudo, None)]);
      }
      rooms := rooms[i := room];
      socket.roomId := Some(room.id);
      SaveSocketSession(socket, true);
      sent := sent + [UpdateRoom(room)];
    }

    /** The `leaveRoom` helper, specified by `Leave`. The session is not saved
        here. */
    method LeaveRoom(socket: Socket)
      requires Valid()
      modifies this`rooms, this`sent, socket`roomId
      ensures Valid()
      ensures var out := Leave(old(rooms), socket.id);
        && rooms == out.rooms
        && sent == old(sent) + out.events
        && socket.roomId == if out.clears then None else old(socket.roomId)
    {
      var found := FindRoomBySocketId(rooms, socket.id);
      if found.None? {
        sent := sent + [LeaveAck(socket.id)];
        return;
      }
      var i := found.value;
      LeaveKeepsRegistryOk(rooms, i, socket.id);
      var room := rooms[i];
      room := room.(players := RemovePlayer(room.players, socket.id));
      socket.roomId := None;
      sent := sent + [LeaveAck(socket.id)];
      if |room.players| == 0 {
        rooms := rooms[..i] + rooms[i + 1..];
        return;
      }
      if room.owner == socket.id {
        room := room.(owner := room.players[0].socketId);
      }
      rooms := rooms[i := room];
      sent := sent + [UpdateRoom(room)];
    }

    /** The handshake middleware (`io.use`). A truthy stored session id that is
        found restores the session's room and name; one that is not found only
        emits `session_expired` and lets the connection through without a
        session id or name. Without a session id, a truthy username is required
        and a new session id (`newSessionId`, from the id supplier) is minted. */
    method Handshake(socket: Socket, authSessionID: Option<SessionId>, authUsername: Option<string>, newSessionId: SessionId)
      returns (accepted: bool)
      requires Valid()
      modifies socket, this`sent
      ensures Valid()
      ensures accepted <==> Truthy(authSessionID) || Truthy(authUsername)
      ensures Truthy(authSessionID) && sessionStore.FindSession(authSessionID).Some? ==>
        var session := sessionStore.FindSession(authSessionID).value;
        && socket.sessionID == authSessionID
        && socket.roomId == session.roomId
        && socket.username == session.username
        && sent == old(sent)
      ensures Truthy(authSessionID) && sessionStore.FindSession(authSessionID).None? ==>
        && unchanged(socket)
        && sent == old(sent) + [Event(ToSocket(socket.id), "session_expired", NoPayload)]
      ensures !Truthy(authSessionID) && Truthy(authUsername) ==>
        && socket.sessionID == Some(newSessionId)
        && socket.username == authUsername
        && socket.roomId == old(socket.roomId)
        && sent == old(sent)
      ensures !accepted ==> unchanged(socket) && sent == old(sent)
    {
      if Truthy(authSessionID) {
        var session := sessionStore.FindSession(authSessionID);
        if session.Some? {
          socket.sessionID := authSessionID;
          socket.roomId := session.value.roomId;
          socket.username := session.value.username;
          return true;
        }
        sent := sent + [Event(ToSocket(socket.id), "session_expired", NoPayload)];
        return true;
      }
      if !Truthy(authUsername) {
        return false;
      }
      socket.sessionID := Some(newSessionId);
      socket.username := authUsername;
      return true;
    }

    /** The connection handler: saves the session as connected, sends the
        socket its session id, and, if the socket's cached room is still live,
        replays the socket into it and broadcasts the room. */
    method OnConnection(socket: Socket)
      requires Valid()
      modifies this`rooms, this`sent, sessionStore
      ensures Valid()
      ensures sessionStore.sessions ==
        old(sessionStore.sessions)[socket.sessionID := Session(socket.id, socket.roomId, socket.username, true)]
      ensures sessionStore.keys == Inserted(old(sessionStore.keys), socket.sessionID)
      ensures var hello := Event(ToSocket(socket.id), "session", SessionKeys(socket.sessionID, socket.id));
        if Truthy(socket.roomId) && RoomById(old(rooms), socket.roomId).Some? then
          var i := RoomById(old(rooms), socket.roomId).value;
          && rooms == old(rooms)[i := Replay(old(rooms)[i], socket.id, socket.username)]
          && sent == old(sent) + [hello, UpdateRoom(rooms[i])]
        else
          && rooms == old(rooms)
          && sent == old(sent) + [hello]
    {
      SaveSocketSession(socket, true);
      sent := sent + [Event(ToSocket(socket.id), "session", SessionKeys(socket.sessionID, socket.id))];
      if Truthy(socket.roomId) {
        var found := RoomById(rooms, socket.roomId);
        if found.Some? {
          var i := found.value;
          var room := rooms[i];
          ReplayKeepsRoomOk(room, socket.id, socket.username);
          if socket.id !in SocketIds(room.players) {
            room := room.(players := room.players + [Player(socket.id, socket.username, None)]);
          }
          ReplaceKeepsRegistryOk(rooms, i, room);
          rooms := rooms[i := room];
          sent := sent + [UpdateRoom(room)];
        }
      }
    }

    /** The `startGame` handler, specified by `StartCheck`: nothing unless the
        socket owns its cached room; a failure carrying the player count below
        two players; otherwise the room is started with fresh roles (also when
        it had already started) and the whole room is told. */
    method OnStartGame(socket: Socket)
      requires Valid()
      modifies this`rooms, this`sent
      ensures Valid()
      ensures match StartCheck(old(rooms), socket.roomId, socket.id)
        case Ignore => rooms == old(rooms) && sent == old(sent)
        case TooFewPlayers(n) =>
          && rooms == old(rooms)
          && sent == old(sent) + [Event(ToSocket(socket.id), "startGameFailed", PlayerCount(n))]
        case Begin(i) =>
          && |rooms| == |old(rooms)|
          && rooms == old(rooms)[i := rooms[i]]
          && StartedFrom(old(rooms)[i], rooms[i])
          && sent == old(sent) + [Event(ToRoom(rooms[i].id), "startGame", View(GameState(rooms[i])))]
    {
      var found := RoomById(rooms, socket.roomId);
      if found.None? || socket.id != rooms[found.value].owner {
        return;
      }
      var i := found.value;
      var room := rooms[i];
      var playerCount := |room.players|;
      if playerCount < MIN_PLAYERS_TO_START {
        sent := sent + [Event(ToSocket(socket.id), "startGameFailed", PlayerCount(playerCount))];
        return;
      }
      var dealt := AssignRoles(room.players);
      room := room.(state := Started, players := dealt);
      StartKeepsRoomOk(rooms[i], room);
      ReplaceKeepsRegistryOk(rooms, i, room);
      rooms := rooms[i := room];
      sent := sent + [Event(ToRoom(room.id), "startGame", View(GameState(room)))];
    }

    /** The `createRoom` handler. A socket already in a room is refused.
        Otherwise a room is added under the fresh key `newRoomId` with the first
        code drawn from `gen` that no live room has, the socket joins it as its
        only player and owner, the room is broadcast and the creator told. */
    method OnCreateRoom(socket: Socket, pseudo: Pseudo, newRoomId: RoomId, gen: nat -> Code)
      requires Valid()
      requires forall i | 0 <= i < |rooms| :: rooms[i].id != newRoomId
      requires exists n: nat :: gen(n) !in Codes(rooms)
      modifies this`rooms, this`sent, socket`roomId, sessionStore
      ensures Valid()
      ensures InSomeRoom(old(rooms), socket.id) ==>
        && rooms == old(rooms)
        && socket.roomId == old(socket.roomId)
        && sessionStore.sessions == old(sessionStore.sessions)
        && sent == old(sent) + [Event(ToSocket(socket.id), "joinRoomFailed", Text(JoinFailureMessage(AlreadyInRoom)))]
      ensures !InSomeRoom(old(rooms), socket.id) ==>
        && |rooms| == |old(rooms)| + 1
        && rooms[..|old(rooms)|] == old(rooms)
        && var room := rooms[|old(rooms)|];
        && room.id == newRoomId
        && room.code !in Codes(old(rooms))
        && (exists n: nat :: room.code == gen(n) && forall m: nat | m < n :: gen(m) in Codes(old(rooms)))
        && room.owner == socket.id
        && room.state == Lobby
        && room.players == [Player(socket.id, pseudo, None)]
        && socket.roomId == Some(newRoomId)
        && sessionStore.sessions ==
             old(sessionStore.sessions)[socket.sessionID := Session(socket.id, Some(newRoomId), socket.username, true)]
        && sent == old(sent) + [UpdateRoom(room), Event(ToSocket(socket.id), "createRoomSuccess", View(GameState(room)))]
      ensures sessionStore.keys ==
        if InSomeRoom(old(rooms), socket.id) then old(sessionStore.keys)
        else Inserted(old(sessionStore.keys), socket.sessionID)
    {
      if FindRoomBySocketId(rooms, socket.id).Some? {
        sent := sent + [Event(ToSocket(socket.id), "joinRoomFailed", Text(JoinFailureMessage(AlreadyInRoom)))];
        return;
      }
      ghost var before := rooms;
      var code := GenerateRoomCode(rooms, gen);
      rooms := rooms + [NewRoom(newRoomId, code, socket.id)];
      JoinRoom(pseudo, socket, |rooms| - 1);
      CreateKeepsRegistryOk(before, newRoomId, code, socket.id, pseudo);
      CreateKeepsRoomOk(newRoomId, code, socket.id, pseudo);
      assert rooms == before + [Join(NewRoom(newRoomId, code, socket.id), socket.id, pseudo)];
      assert rooms[|before|] == Join(NewRoom(newRoomId, code, socket.id), socket.id, pseudo);
      assert rooms[|before|].code == code;
      sent := sent + [Event(ToSocket(socket.id), "createRoomSuccess", View(GameState(rooms[|rooms| - 1])))];
    }

    /** The `joinRoom` handler, specified by `JoinCheck`: a refusal changes
        nothing but the sender's failure message; an admission appends the
        socket to the room with that code, which stays within capacity. */
    method OnJoinRoom(socket: Socket, pseudo: Pseudo, roomCode: Code)
      requires Valid()
      modifies this`rooms, this`sent, socket`roomId, sessionStore
      ensures Valid()
      ensures match JoinCheck(old(rooms), socket.id, roomCode)
        case Refuse(reason) =>
          && rooms == old(rooms)
          && socket.roomId == old(socket.roomId)
          && sessionStore.sessions == old(sessionStore.sessions)
          && sessionStore.keys == old(sessionStore.keys)
          && sent == old(sent) + [Event(ToSocket(socket.id), "joinRoomFailed", Text(JoinFailureMessage(reason)))]
        case Admit(i) =>
          && |rooms| == |old(rooms)|
          && rooms == old(rooms)[i := rooms[i]]
          && rooms[i] == old(rooms)[i].(players := old(rooms)[i].players + [Player(socket.id, pseudo, None)])
          && |rooms[i].players| <= MAX_PLAYERS_PER_ROOM
          && socket.roomId == Some(rooms[i].id)
          && sessionStore.sessions ==
               old(sessionStore.sessions)[socket.sessionID := Session(socket.id, Some(rooms[i].id), socket.username, true)]
          && sessionStore.keys == Inserted(old(sessionStore.keys), socket.sessionID)
          && sent == old(sent) + [UpdateRoom(rooms[i])]
    {
      if FindRoomBySocketId(rooms, socket.id).Some? {
        sent := sent + [Event(ToSocket(socket.id), "joinRoomFailed", Text(JoinFailureMessage(AlreadyInRoom)))];
        return;
      }
      var found := FindRoomByCode(rooms, roomCode);
      if found.None? {
        sent := sent + [Event(ToSocket(socket.id), "joinRoomFailed", Text(JoinFailureMessage(RoomCodeInvalid)))];
        return;
      }
      var i := found.value;
      if |rooms[i].players| >= MAX_PLAYERS_PER_ROOM {
        sent := sent + [Event(ToSocket(socket.id), "joinRoomFailed", Text(JoinFailureMessage(RoomIsFull)))];
        return;
      }
      JoinNeverExceedsCapacity(rooms, socket.id, roomCode, pseudo);
      JoinKeepsRoomOk(rooms[i], socket.id, pseudo);
      ReplaceKeepsRegistryOk(rooms, i, Join(rooms[i], socket.id, pseudo));
      JoinRoom(pseudo, socket, i);
    }

    /** The `leaveRoom` handler. */
    method OnLeaveRoom(socket: Socket)
      requires Valid()
      modifies this`rooms, this`sent, socket`roomId
      ensures Valid()
      ensures var out := Leave(old(rooms), socket.id);
        && rooms == out.rooms
        && sent == old(sent) + out.events
        && socket.roomId == if out.clears then None else old(socket.roomId)
    {
      LeaveRoom(socket);
    }

    /** The `disconnect` handler: the session is saved as disconnected while
        it still holds the cached room, then the socket leaves its room. */
    method OnDisconnect(socket: Socket)
      requires Valid()
      modifies this`rooms, this`sent, socket`roomId, sessionStore
      ensures Valid()
      ensures sessionStore.sessions ==
        old(sessionStore.sessions)[socket.sessionID := Session(socket.id, old(socket.roomId), socket.username, false)]
      ensures sessionStore.keys == Inserted(old(sessionStore.keys), socket.sessionID)
      ensures var out := Leave(old(rooms), socket.id);
        && rooms == out.rooms
        && sent == old(sent) + out.events
        && socket.roomId == if out.clears then None else old(socket.roomId)
    {
      SaveSocketSession(socket, false);
      LeaveRoom(socket);
    }
  }
}
