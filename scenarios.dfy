/** End-to-end scenarios: a room created, joined, started, left and rejoined,
    first on room values, then driven through the server's handlers. */
module Scenarios {
  import opened Base
  import opened Rooms
  import opened Registry
  import opened SessionStore
  import opened Lobby

  /** create(A) then join(B) with the room's code is admitted, A may start the
      two-player room, and once started every player is shown a role. */
  lemma TwoPlayersCanStart(id: RoomId, code: Code, a: SocketId, b: SocketId, pa: Pseudo, pb: Pseudo, after: Room)
    requires a != b
    requires StartedFrom(Join(Join(NewRoom(id, code, a), a, pa), b, pb), after)
    ensures JoinCheck([Join(NewRoom(id, code, a), a, pa)], b, code) == Admit(0)
    ensures StartCheck([Join(Join(NewRoom(id, code, a), a, pa), b, pb)], Some(id), a) == Begin(0)
    ensures var view := GameState(after);
      && view.state == Started
      && |view.players| == 2
      && forall i | 0 <= i < 2 :: view.players[i].role.Some? && view.players[i].role.value in ROLES
  {
    CreateThenJoin(id, code, a, b, pa, pb);
    var created := Join(NewRoom(id, code, a), a, pa);
    CreateKeepsRoomOk(id, code, a, pa);
    assert SocketIds(created.players) == [a];
    assert !InSomeRoom([created], b);
    JoinCheckByCode([created], b, code, 0);
  }

  /** create(A) then start by A fails, reporting one player, and the room stays
      in the lobby. */
  lemma SoloStartFails(id: RoomId, code: Code, a: SocketId, pa: Pseudo)
    ensures var created := Join(NewRoom(id, code, a), a, pa);
      && StartCheck([created], Some(id), a) == TooFewPlayers(1)
      && created.state == Lobby
  {
    CreateKeepsRoomOk(id, code, a, pa);
  }

  /** create(A) then join(B): the room lists A then B, A owning it. */
  lemma CreateThenJoin(id: RoomId, code: Code, a: SocketId, b: SocketId, pa: Pseudo, pb: Pseudo)
    requires a != b
    ensures Join(Join(NewRoom(id, code, a), a, pa), b, pb) ==
      Room(id, code, [Player(a, pa, None), Player(b, pb, None)], Lobby, a)
  {
    var created := Join(NewRoom(id, code, a), a, pa);
    CreateKeepsRoomOk(id, code, a, pa);
    assert SocketIds(created.players) == [a];
    JoinAppendsNewcomer(created, b, pb);
  }

  /** A player who drops out of a two-player room and comes back on a new
      connection is listed again, after the player who stayed. */
  lemma ReconnectIntoLiveRoom(id: RoomId, code: Code, a: SocketId, b: SocketId, b2: SocketId, pa: Pseudo, pb: Pseudo, name: Pseudo)
    requires a != b && a != b2
    ensures var room := Join(Join(NewRoom(id, code, a), a, pa), b, pb);
      && Leave([room], b).rooms == [Depart(room, b).value]
      && RoomById(Leave([room], b).rooms, Some(id)) == Some(0)
      && Replay(Depart(room, b).value, b2, name).players == [Player(a, pa, None), Player(b2, name, None)]
  {
    CreateThenJoin(id, code, a, b, pa, pb);
    var room := Room(id, code, [Player(a, pa, None), Player(b, pb, None)], Lobby, a);
    var left := room.(players := [Player(a, pa, None)]);
    SecondPlayerLeaves(room, a, b, pa, pb);
    assert SocketIds(left.players) == [a];
    assert Replay(left, b2, name) == left.(players := left.players + [Player(b2, name, None)]);
  }

  /** In a two-player room, the second player's departure leaves the first. */
  lemma SecondPlayerLeaves(room: Room, a: SocketId, b: SocketId, pa: Pseudo, pb: Pseudo)
    requires a != b && room.players == [Player(a, pa, None), Player(b, pb, None)] && room.owner == a
    ensures Depart(room, b) == Some(room.(players := [Player(a, pa, None)]))
    ensures Leave([room], b).rooms == [room.(players := [Player(a, pa, None)])]
  {
    assert SocketIds(room.players)[1] == b;
    assert FindRoomBySocketId([room], b) == Some(0);
    RemovePlayerAt(room.players, 1);
    assert RemovePlayer(room.players, b) == [Player(a, pa, None)];
  }

  /** A player who was alone in the room deletes it by dropping out, so the
      reconnection finds no room to join. */
  lemma ReconnectAfterRoomDeleted(id: RoomId, code: Code, b: SocketId, pb: Pseudo)
    ensures var alone := Join(NewRoom(id, code, b), b, pb);
      && Leave([alone], b).rooms == []
      && RoomById(Leave([alone], b).rooms, Some(id)).None?
  {
    var alone := Join(NewRoom(id, code, b), b, pb);
    CreateKeepsRoomOk(id, code, b, pb);
    assert SocketIds(alone.players)[0] == b;
    assert FindRoomBySocketId([alone], b) == Some(0);
    DepartDeletesOnlyLast(alone, b);
  }

  /** The create / join / start scenario run through the handlers: once the
      owner starts the two-player room, the broadcast shows every player a
      role. */
  method CreateJoinStart() {
    var server, alice, bob := SetUpPair();
    assert StartCheck(server.rooms, alice.roomId, alice.id) == Begin(0);
    var lobby := server.rooms[0];
    server.OnStartGame(alice);
    assert server.rooms[0].state == Started;
    StartKeepsRoomOk(lobby, server.rooms[0]);
    assert GameState(server.rooms[0]).players[1].role.Some?;
  }

  /** A new connection that presents a username and no session id: it is
      given the new session id and is in no room. */
  method Connect(server: Server, id: SocketId, name: string, session: SessionId) returns (socket: Socket)
    requires server.Valid() && name != ""
    modifies server, server.sessionStore
    ensures server.Valid() && server.rooms == old(server.rooms)
    ensures fresh(socket)
    ensures socket.id == id && socket.sessionID == Some(session) && socket.username == Some(name) && socket.roomId == None
  {
    socket := new Socket(id);
    var ok := server.Handshake(socket, None, Some(name), session);
    server.OnConnection(socket);
  }

  /** Two fresh connections, "alice" creating a room and "bob" joining it
      under the name "bobby". */
  method SetUpPair() returns (server: Server, alice: Socket, bob: Socket)
    ensures fresh(server) && fresh(server.sessionStore) && fresh(alice) && fresh(bob) && server.Valid()
    ensures alice.id == "socket-a" && alice.roomId == Some("room-1")
    ensures server.rooms == [Room("room-1", "0a1b2c", [Player("socket-a", Some("alice"), None), Player("socket-b", Some("bobby"), None)], Lobby, "socket-a")]
    ensures bob.id == "socket-b" && bob.sessionID == Some("session-b") && bob.roomId == Some("room-1") && bob.username == Some("bob")
  {
    server := new Server();
    alice := Connect(server, "socket-a", "alice", "session-a");
    bob := Connect(server, "socket-b", "bob", "session-b");
    var gen := (n: nat) => "0a1b2c";
    assert gen(0) !in Codes(server.rooms);
    server.OnCreateRoom(alice, Some("alice"), "room-1", gen);
    var code := server.rooms[0].code;
    assert code == "0a1b2c";
    assert server.rooms == [Room("room-1", code, [Player("socket-a", Some("alice"), None)], Lobby, "socket-a")];
    assert SocketIds(server.rooms[0].players) == ["socket-a"];
    JoinCheckByCode(server.rooms, "socket-b", code, 0);
    assert JoinCheck(server.rooms, "socket-b", code) == Admit(0);
    ghost var created := server.rooms[0];
    server.OnJoinRoom(bob, Some("bobby"), code);
    assert |server.rooms| == 1;
    assert server.rooms[0] == created.(players := created.players + [Player("socket-b", Some("bobby"), None)]);
    assert [Player("socket-a", Some("alice"), None)] + [Player("socket-b", Some("bobby"), None)]
        == [Player("socket-a", Some("alice"), None), Player("socket-b", Some("bobby"), None)];
    assert server.rooms == [server.rooms[0]];
  }

  /** "bob" drops out by disconnecting and comes back on a new connection
      presenting the old session id: the session restores the cached room and
      the handshake name, and the replay lists the player again under that
      name, after "alice". */
  method DisconnectThenReconnect() {
    var server, alice, bob := SetUpPair();
    assert SocketIds(server.rooms[0].players)[1] == "socket-b";
    assert FindRoomBySocketId(server.rooms, "socket-b") == Some(0);
    RemovePlayerAt(server.rooms[0].players, 1);
    server.OnDisconnect(bob);
    assert server.rooms[0].players == [Player("socket-a", Some("alice"), None)];
    assert server.sessionStore.FindSession(Some("session-b")) == Some(Session("socket-b", Some("room-1"), Some("bob"), false));

    var bob2 := new Socket("socket-b2");
    var ok := server.Handshake(bob2, Some("session-b"), None, "unused");
    assert bob2.roomId == Some("room-1") && bob2.username == Some("bob");
    assert SocketIds(server.rooms[0].players) == ["socket-a"];
    server.OnConnection(bob2);
    assert server.rooms[0].players == [Player("socket-a", Some("alice"), None), Player("socket-b2", Some("bob"), None)];
  }
}
