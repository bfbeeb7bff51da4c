/** The server's `rooms` dictionary. Its keys are room ids and it is iterated
    in insertion order (`Object.values(rooms)`), so it is modelled as the
    sequence of its rooms in that order, each room carrying its own key. */
module Registry {
  import opened Base
  import opened Rooms

  ghost predicate UniqueIds(rooms: seq<Room>) {
    forall i, j | 0 <= i < j < |rooms| :: rooms[i].id != rooms[j].id
  }

  /** Codes are unique among the live rooms only; a deleted room's code may
      come back. */
  ghost predicate UniqueCodes(rooms: seq<Room>) {
    forall i, j | 0 <= i < j < |rooms| :: rooms[i].code != rooms[j].code
  }

  /** The registry invariant: keys and codes unique, every room well formed
      (in particular a room is present only while it has players). */
  ghost predicate RegistryOk(rooms: seq<Room>) {
    && UniqueIds(rooms)
    && UniqueCodes(rooms)
    && forall i | 0 <= i < |rooms| :: RoomOk(rooms[i])
  }

  function Codes(rooms: seq<Room>): (codes: seq<Code>)
    ensures |codes| == |rooms|
    ensures forall i | 0 <= i < |rooms| :: codes[i] == rooms[i].code
  {
    seq(|rooms|, i requires 0 <= i < |rooms| => rooms[i].code)
  }

  /** The socket is listed in some room. */
  predicate InSomeRoom(rooms: seq<Room>, sid: SocketId) {
    exists i | 0 <= i < |rooms| :: sid in SocketIds(rooms[i].players)
  }

  /** `findRoomBySocketId`: the first room, in insertion order, listing the
      socket. */
  function FindRoomBySocketId(rooms: seq<Room>, sid: SocketId): (r: Option<nat>)
    ensures r.None? <==> !InSomeRoom(rooms, sid)
    ensures r.Some? ==> r.value < |rooms| && sid in SocketIds(rooms[r.value].players)
    ensures r.Some? ==> forall i | 0 <= i < r.value :: sid !in SocketIds(rooms[i].players)
  {
    FindFirst(rooms, (room: Room) => sid in SocketIds(room.players))
  }

  /** `findRoomByCode`: the first room, in insertion order, with that code. */
  function FindRoomByCode(rooms: seq<Room>, code: Code): (r: Option<nat>)
    ensures r.None? <==> code !in Codes(rooms)
    ensures r.Some? ==> r.value < |rooms| && rooms[r.value].code == code
    ensures r.Some? ==> forall i | 0 <= i < r.value :: rooms[i].code != code
  {
    var r := FindFirst(rooms, (room: Room) => room.code == code);
    assert r.Some? ==> Codes(rooms)[r.value] == code;
    r
  }

  /** `rooms[roomId]`: the room stored under that key, if any. */
  function RoomById(rooms: seq<Room>, roomId: Option<RoomId>): (r: Option<nat>)
    requires UniqueIds(rooms)
    ensures r.Some? <==> exists i | 0 <= i < |rooms| :: roomId == Some(rooms[i].id)
    ensures r.Some? ==> r.value < |rooms| && roomId == Some(rooms[r.value].id)
  {
    if roomId.None? then None
    else FindFirst(rooms, (room: Room) => room.id == roomId.value)
  }

  /** `generateRoomCode`: draws candidates from `gen` (the n-th call of the
      random generator yields `gen(n)`) until one is not the code of a live
      room, and returns the first such candidate. */
  method GenerateRoomCode(rooms: seq<Room>, gen: nat -> Code) returns (code: Code)
    requires exists n: nat :: gen(n) !in Codes(rooms)
    ensures code !in Codes(rooms)
    ensures exists n: nat :: code == gen(n) && forall m: nat | m < n :: gen(m) in Codes(rooms)
  {
    ghost var free: nat :| gen(free) !in Codes(rooms);
    var n: nat := 0;
    code := gen(0);
    while code in Codes(rooms)
      invariant n <= free
      invariant code == gen(n)
      invariant forall m: nat | m < n :: gen(m) in Codes(rooms)
      decreases free - n
    {
      n := n + 1;
      code := gen(n);
    }
  }

  /** Why a join request is turned down; the messages are those sent with
      `joinRoomFailed`. */
  datatype JoinFailure = AlreadyInRoom | RoomCodeInvalid | RoomIsFull

  function JoinFailureMessage(reason: JoinFailure): string {
    match reason
    case AlreadyInRoom => "player already in a room"
    case RoomCodeInvalid => "room code invalid"
    case RoomIsFull => "room is full"
  }

  datatype JoinDecision = Refuse(reason: JoinFailure) | Admit(index: nat)

  /** The `joinRoom` handler's checks, in order: already in a room, no room
      with that code, room at capacity; only the first failure is reported. */
  function JoinCheck(rooms: seq<Room>, sid: SocketId, code: Code): (d: JoinDecision)
    ensures d == Refuse(AlreadyInRoom) <==> InSomeRoom(rooms, sid)
    ensures d == Refuse(RoomCodeInvalid) <==> !InSomeRoom(rooms, sid) && code !in Codes(rooms)
    ensures d == Refuse(RoomIsFull) ==>
      && !InSomeRoom(rooms, sid)
      && exists i | 0 <= i < |rooms| :: rooms[i].code == code && |rooms[i].players| >= MAX_PLAYERS_PER_ROOM
    ensures d.Admit? ==>
      && !InSomeRoom(rooms, sid)
      && d.index < |rooms|
      && rooms[d.index].code == code
      && |rooms[d.index].players| < MAX_PLAYERS_PER_ROOM
  {
    if FindRoomBySocketId(rooms, sid).Some? then Refuse(AlreadyInRoom)
    else match FindRoomByCode(rooms, code)
      case None => Refuse(RoomCodeInvalid)
      case Some(i) =>
        if |rooms[i].players| >= MAX_PLAYERS_PER_ROOM then Refuse(RoomIsFull) else Admit(i)
  }

  /** With unique codes, the full-room refusal and the admission are decided by
      the one room that has the code. */
  lemma JoinCheckByCode(rooms: seq<Room>, sid: SocketId, code: Code, i: nat)
    requires UniqueCodes(rooms)
    requires i < |rooms| && rooms[i].code == code
    requires !InSomeRoom(rooms, sid)
    ensures JoinCheck(rooms, sid, code) ==
      if |rooms[i].players| >= MAX_PLAYERS_PER_ROOM then Refuse(RoomIsFull) else Admit(i)
  {
    var r := FindRoomByCode(rooms, code);
    assert Codes(rooms)[i] == code;
  }

  /** A successful join appends the newcomer as the last player, without a
      role, and never takes the room above `MAX_PLAYERS_PER_ROOM`. */
  lemma JoinNeverExceedsCapacity(rooms: seq<Room>, sid: SocketId, code: Code, pseudo: Pseudo)
    requires JoinCheck(rooms, sid, code).Admit?
    ensures var i := JoinCheck(rooms, sid, code).index;
      && Join(rooms[i], sid, pseudo).players == rooms[i].players + [Player(sid, pseudo, None)]
      && |Join(rooms[i], sid, pseudo).players| <= MAX_PLAYERS_PER_ROOM
  {
    var i := JoinCheck(rooms, sid, code).index;
    JoinAppendsNewcomer(rooms[i], sid, pseudo);
  }

  datatype StartDecision = Ignore | TooFewPlayers(count: nat) | Begin(index: nat)

  /** The `startGame` handler's checks: no-op unless the cached room exists and
      the socket owns it; a failure carrying the count below two players. The
      room's state is not checked, so a started room is started again. */
  function StartCheck(rooms: seq<Room>, roomId: Option<RoomId>, sid: SocketId): (d: StartDecision)
    requires UniqueIds(rooms)
    ensures d.Ignore? <==> forall i | 0 <= i < |rooms| :: roomId == Some(rooms[i].id) ==> rooms[i].owner != sid
    ensures d.TooFewPlayers? ==>
      exists i | 0 <= i < |rooms| ::
        roomId == Some(rooms[i].id) && rooms[i].owner == sid && d.count == |rooms[i].players| < MIN_PLAYERS_TO_START
    ensures d.Begin? ==>
      && d.index < |rooms|
      && roomId == Some(rooms[d.index].id)
      && rooms[d.index].owner == sid
      && |rooms[d.index].players| >= MIN_PLAYERS_TO_START
  {
    match RoomById(rooms, roomId)
    case None => Ignore
    case Some(i) =>
      if sid != rooms[i].owner then Ignore
      else if |rooms[i].players| < MIN_PLAYERS_TO_START then TooFewPlayers(|rooms[i].players|)
      else Begin(i)
  }

  /** Replacing one room by a well-formed room with the same key and code keeps
      the registry invariant. */
  lemma ReplaceKeepsRegistryOk(rooms: seq<Room>, i: nat, room: Room)
    requires RegistryOk(rooms)
    requires i < |rooms|
    requires RoomOk(room) && room.id == rooms[i].id && room.code == rooms[i].code
    ensures RegistryOk(rooms[i := room])
  {
  }

  /** Deleting a room keeps the registry invariant. */
  lemma DeleteKeepsRegistryOk(rooms: seq<Room>, i: nat)
    requires RegistryOk(rooms)
    requires i < |rooms|
    ensures RegistryOk(rooms[..i] + rooms[i + 1..])
  {
    var after := rooms[..i] + rooms[i + 1..];
    forall a, b | 0 <= a < b < |after|
      ensures after[a].id != after[b].id && after[a].code != after[b].code
    {
      SpliceAt(rooms, i, a);
      SpliceAt(rooms, i, b);
    }
    forall a | 0 <= a < |after| ensures RoomOk(after[a]) {
      SpliceAt(rooms, i, a);
    }
  }

  /** `createRoom` adds a well-formed room under a fresh key with a code no
      live room has, so the invariant (codes unique among live rooms) holds. */
  lemma CreateKeepsRegistryOk(rooms: seq<Room>, id: RoomId, code: Code, sid: SocketId, pseudo: Pseudo)
    requires RegistryOk(rooms)
    requires forall i | 0 <= i < |rooms| :: rooms[i].id != id
    requires code !in Codes(rooms)
    ensures RegistryOk(rooms + [Join(NewRoom(id, code, sid), sid, pseudo)])
  {
    CreateKeepsRoomOk(id, code, sid, pseudo);
    forall i | 0 <= i < |rooms| ensures rooms[i].code != code {
      assert Codes(rooms)[i] == rooms[i].code;
    }
  }

  /** `leaveRoom` for a listed socket: the room is deleted exactly when it had
      one player, otherwise it is replaced by its well-formed successor; every
      other room is kept and the invariant holds. */
  lemma LeaveKeepsRegistryOk(rooms: seq<Room>, i: nat, sid: SocketId)
    requires RegistryOk(rooms)
    requires i < |rooms| && sid in SocketIds(rooms[i].players)
    ensures Depart(rooms[i], sid).None? <==> |rooms[i].players| == 1
    ensures Depart(rooms[i], sid).None? ==> RegistryOk(rooms[..i] + rooms[i + 1..])
    ensures Depart(rooms[i], sid).Some? ==> RegistryOk(rooms[i := Depart(rooms[i], sid).value])
  {
    DepartDeletesOnlyLast(rooms[i], sid);
    if Depart(rooms[i], sid).None? {
      DeleteKeepsRegistryOk(rooms, i);
    } else {
      DepartKeepsRoomOk(rooms[i], sid);
      ReplaceKeepsRegistryOk(rooms, i, Depart(rooms[i], sid).value);
    }
  }
}
