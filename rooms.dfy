/** Rooms and their players as values: the records the lobby server keeps for a
    room, the client-visible projection of a room, and the effect each server
    operation has on a single room. The registry of all rooms is in `Registry`,
    the handlers that change it in `Lobby`. */
module Rooms {
  import opened Base

  type SocketId = string
  type RoomId = string
  type Code = string
  type Role = string
  /** A display name as the client sent it; `None` is an absent name. */
  type Pseudo = Option<string>

  const MAX_PLAYERS_PER_ROOM: nat := 5
  const MIN_PLAYERS_TO_START: nat := 2
  const ROLES: seq<Role> := ["Imposteur", "Droide", "Mage"]

  /** The room's `state` field: `Lobby` is 0, `Started` is 1. */
  datatype RoomState = Lobby | Started

  /** A member of a room; `role` is `None` (JavaScript `null`) until a start
      assigns one. */
  datatype Player = Player(socketId: SocketId, pseudo: Pseudo, role: Option<Role>)

  /** A room record; its creation and start timestamps are not modelled. */
  datatype Room = Room(id: RoomId, code: Code, players: seq<Player>, state: RoomState, owner: SocketId)

  /** The payload broadcast to a room (`gameState`). */
  datatype PlayerView = PlayerView(socketId: SocketId, pseudo: Pseudo, role: Option<Role>)
  datatype RoomView = RoomView(id: RoomId, code: Code, owner: SocketId, state: RoomState, players: seq<PlayerView>)

  function SocketIds(players: seq<Player>): (ids: seq<SocketId>)
    ensures |ids| == |players|
    ensures forall i | 0 <= i < |players| :: ids[i] == players[i].socketId
  {
    seq(|players|, i requires 0 <= i < |players| => players[i].socketId)
  }

  predicate DistinctSocketIds(players: seq<Player>) {
    forall i, j | 0 <= i < j < |players| :: players[i].socketId != players[j].socketId
  }

  /** `Array.prototype.find`, returning the position of the first element that
      satisfies `p`. */
  function FindFirst<T>(s: seq<T>, p: T -> bool): (r: Option<nat>)
    ensures r.None? <==> forall i | 0 <= i < |s| :: !p(s[i])
    ensures r.Some? ==> r.value < |s| && p(s[r.value]) && forall i | 0 <= i < r.value :: !p(s[i])
  {
    if s == [] then None
    else if p(s[0]) then Some(0)
    else match FindFirst(s[1..], p)
      case None => None
      case Some(i) => Some(i + 1)
  }

  /** `room.players.find(player => player.socketId === socketId)`. */
  function FindPlayer(players: seq<Player>, sid: SocketId): (r: Option<nat>)
    ensures r.None? <==> sid !in SocketIds(players)
    ensures r.Some? ==> r.value < |players| && players[r.value].socketId == sid
    ensures r.Some? ==> forall i | 0 <= i < r.value :: players[i].socketId != sid
  {
    var r := FindFirst(players, (p: Player) => p.socketId == sid);
    assert r.Some? ==> SocketIds(players)[r.value] == sid;
    r
  }

  /** What every client of the room is shown (`gameState`): the room's fields
      and its players in order, with each role withheld unless the room has
      started. */
  function GameState(room: Room): (view: RoomView)
    ensures view.id == room.id && view.code == room.code && view.owner == room.owner && view.state == room.state
    ensures |view.players| == |room.players|
    ensures forall i | 0 <= i < |room.players| ::
      view.players[i].socketId == room.players[i].socketId && view.players[i].pseudo == room.players[i].pseudo
    ensures room.state != Started ==> forall i | 0 <= i < |view.players| :: view.players[i].role == None
    ensures room.state == Started ==> forall i | 0 <= i < |view.players| :: view.players[i].role == room.players[i].role
  {
    RoomView(room.id, room.code, room.owner, room.state,
      seq(|room.players|, i requires 0 <= i < |room.players| =>
        PlayerView(room.players[i].socketId, room.players[i].pseudo,
                   if room.state == Started then room.players[i].role else None)))
  }

  /** A freshly created room, before its creator joins it. */
  function NewRoom(id: RoomId, code: Code, owner: SocketId): Room {
    Room(id, code, [], Lobby, owner)
  }

  /** The effect of `joinRoom` on the room: a member's name is updated in
      place, anybody else is appended without a role. */
  function Join(room: Room, sid: SocketId, pseudo: Pseudo): (r: Room)
    ensures r.id == room.id && r.code == room.code && r.state == room.state && r.owner == room.owner
    ensures sid in SocketIds(r.players)
    ensures |room.players| <= |r.players| <= |room.players| + 1
    ensures forall i | 0 <= i < |room.players| :: r.players[i].socketId == room.players[i].socketId
  {
    match FindPlayer(room.players, sid)
    case Some(k) =>
      var r := room.(players := room.players[k := room.players[k].(pseudo := pseudo)]);
      assert SocketIds(r.players)[k] == sid;
      r
    case None =>
      var r := room.(players := room.players + [Player(sid, pseudo, None)]);
      assert SocketIds(r.players)[|room.players|] == sid;
      r
  }

  /** `room.players.filter(player => player.socketId !== socketId)`. */
  function RemovePlayer(players: seq<Player>, sid: SocketId): (rest: seq<Player>)
    ensures |rest| <= |players|
    ensures forall p :: p in rest <==> p in players && p.socketId != sid
  {
    if players == [] then []
    else (if players[0].socketId != sid then [players[0]] else []) + RemovePlayer(players[1..], sid)
  }

  /** The effect of `leaveRoom` on the room the socket is in: `None` when the
      room is deleted because nobody is left, otherwise the remaining players
      and, if the owner left, the first remaining player as owner. */
  function Depart(room: Room, sid: SocketId): (r: Option<Room>)
    ensures r.None? <==> forall i | 0 <= i < |room.players| :: room.players[i].socketId == sid
    ensures r.Some? ==>
      && r.value.id == room.id && r.value.code == room.code && r.value.state == room.state
      && sid !in SocketIds(r.value.players)
      && r.value.owner in SocketIds(r.value.players) + [room.owner]
  {
    var rest := RemovePlayer(room.players, sid);
    assert forall i | 0 <= i < |room.players| && room.players[i].socketId != sid :: room.players[i] in rest;
    assert |rest| > 0 ==> rest[0] in room.players && SocketIds(rest)[0] == rest[0].socketId;
    assert forall i | 0 <= i < |rest| :: rest[i] in room.players && rest[i].socketId != sid;
    if |rest| == 0 then None
    else Some(room.(players := rest, owner := if room.owner == sid then rest[0].socketId else room.owner))
  }

  /** The effect of the reconnection replay on the cached room: the socket is
      appended without a role unless it is already listed. */
  function Replay(room: Room, sid: SocketId, pseudo: Pseudo): (r: Room)
    ensures r.id == room.id && r.code == room.code && r.state == room.state && r.owner == room.owner
    ensures sid in SocketIds(r.players)
    ensures |room.players| <= |r.players| <= |room.players| + 1
    ensures r.players[..|room.players|] == room.players
  {
    if sid in SocketIds(room.players) then room
    else
      var r := room.(players := room.players + [Player(sid, pseudo, None)]);
      assert SocketIds(r.players)[|room.players|] == sid;
      r
  }

  /** `dealt` is `players` with every role drawn from `ROLES`, each player's
      socket id, name and position kept. */
  predicate RolesDealt(players: seq<Player>, dealt: seq<Player>) {
    && |dealt| == |players|
    && forall i | 0 <= i < |players| ::
         && dealt[i].socketId == players[i].socketId
         && dealt[i].pseudo == players[i].pseudo
         && dealt[i].role.Some?
         && dealt[i].role.value in ROLES
  }

  /** `after` is what `startGame` makes of `before`: state 1 and fresh roles,
      nothing else changed. */
  predicate StartedFrom(before: Room, after: Room) {
    && after == before.(state := Started, players := after.players)
    && RolesDealt(before.players, after.players)
  }

  /** The players' role draw of `startGame`: one arbitrary element of `ROLES`
      per player (the source draws with `Math.random`). */
  method AssignRoles(players: seq<Player>) returns (dealt: seq<Player>)
    ensures RolesDealt(players, dealt)
  {
    dealt := [];
    for i := 0 to |players|
      invariant |dealt| == i
      invariant forall j | 0 <= j < i ::
        && dealt[j].socketId == players[j].socketId
        && dealt[j].pseudo == players[j].pseudo
        && dealt[j].role.Some?
        && dealt[j].role.value in ROLES
    {
      var k :| 0 <= k < |ROLES|;
      dealt := dealt + [players[i].(role := Some(ROLES[k]))];
    }
  }

  /** The invariant every live room keeps: it has players, its owner is one of
      them, no socket is listed twice, and no role is set while in the lobby. */
  ghost predicate RoomOk(room: Room) {
    && |room.players| > 0
    && room.owner in SocketIds(room.players)
    && DistinctSocketIds(room.players)
    && (room.state == Lobby ==> forall i | 0 <= i < |room.players| :: room.players[i].role == None)
  }

  lemma {:induction false} RemovePlayerAbsent(players: seq<Player>, sid: SocketId)
    requires sid !in SocketIds(players)
    ensures RemovePlayer(players, sid) == players
  {
    if players != [] {
      assert SocketIds(players)[0] == players[0].socketId;
      forall j | 0 <= j < |players| - 1
        ensures SocketIds(players[1..])[j] != sid
      {
        assert SocketIds(players)[j + 1] == players[j + 1].socketId;
      }
      RemovePlayerAbsent(players[1..], sid);
      assert players == [players[0]] + players[1..];
    }
  }

  /** Filtering out a listed socket removes exactly its entry and keeps the
      other players in their order. */
  lemma {:induction false} RemovePlayerAt(players: seq<Player>, i: nat)
    requires DistinctSocketIds(players)
    requires i < |players|
    ensures RemovePlayer(players, players[i].socketId) == players[..i] + players[i + 1..]
  {
    var sid := players[i].socketId;
    if i == 0 {
      forall j | 0 <= j < |players| - 1
        ensures SocketIds(players[1..])[j] != sid
      {
        assert players[1..][j] == players[j + 1];
      }
      RemovePlayerAbsent(players[1..], sid);
    } else {
      assert players[0].socketId != sid;
      assert players[1..][i - 1] == players[i];
      RemovePlayerAt(players[1..], i - 1);
      assert players[..i] == [players[0]] + players[1..][..i - 1];
      assert players[i + 1..] == players[1..][i..];
    }
  }

  /** `joinRoom` on a member renames that member only: same sockets, roles and
      order, the count unchanged. */
  lemma JoinRenamesMember(room: Room, sid: SocketId, pseudo: Pseudo)
    requires DistinctSocketIds(room.players)
    requires sid in SocketIds(room.players)
    ensures var after := Join(room, sid, pseudo).players;
      && |after| == |room.players|
      && forall i | 0 <= i < |after| ::
           && after[i].socketId == room.players[i].socketId
           && after[i].role == room.players[i].role
           && after[i].pseudo == (if room.players[i].socketId == sid then pseudo else room.players[i].pseudo)
  {
  }

  /** `joinRoom` on a non-member appends exactly one player, without a role. */
  lemma JoinAppendsNewcomer(room: Room, sid: SocketId, pseudo: Pseudo)
    requires sid !in SocketIds(room.players)
    ensures Join(room, sid, pseudo).players == room.players + [Player(sid, pseudo, None)]
  {
  }

  /** Joining keeps a room's invariant and makes the socket a member; only the
      player list changes, and it grows by at most one. */
  lemma JoinKeepsRoomOk(room: Room, sid: SocketId, pseudo: Pseudo)
    requires RoomOk(room)
    ensures var after := Join(room, sid, pseudo);
      && RoomOk(after)
      && sid in SocketIds(after.players)
      && after == room.(players := after.players)
      && |after.players| <= |room.players| + 1
  {
    var after := Join(room, sid, pseudo);
    if sid in SocketIds(room.players) {
      JoinRenamesMember(room, sid, pseudo);
      assert SocketIds(after.players) == SocketIds(room.players);
    } else {
      JoinAppendsNewcomer(room, sid, pseudo);
      assert SocketIds(after.players)[|room.players|] == sid;
      assert SocketIds(after.players) == SocketIds(room.players) + [sid];
    }
  }

  /** A room created by `createRoom` holds just its creator, who owns it. */
  lemma CreateKeepsRoomOk(id: RoomId, code: Code, sid: SocketId, pseudo: Pseudo)
    ensures var room := Join(NewRoom(id, code, sid), sid, pseudo);
      && RoomOk(room)
      && room.players == [Player(sid, pseudo, None)]
      && room.owner == sid && room.state == Lobby && room.id == id && room.code == code
  {
    var room := Join(NewRoom(id, code, sid), sid, pseudo);
    assert SocketIds(room.players)[0] == sid;
  }

  /** `leaveRoom` deletes the room exactly when the leaving socket was its last
      player. */
  lemma DepartDeletesOnlyLast(room: Room, sid: SocketId)
    requires RoomOk(room)
    requires sid in SocketIds(room.players)
    ensures Depart(room, sid).None? <==> |room.players| == 1
  {
    var k :| 0 <= k < |room.players| && SocketIds(room.players)[k] == sid;
    RemovePlayerAt(room.players, k);
  }

  /** Position `i` of a sequence with position `k` cut out. */
  lemma SpliceAt<T>(s: seq<T>, k: nat, i: nat)
    requires k < |s| && i < |s| - 1
    ensures (s[..k] + s[k + 1..])[i] == s[if i < k then i else i + 1]
  {
  }

  /** Filtering out one socket keeps the list free of duplicates. */
  lemma RemovePlayerKeepsDistinct(players: seq<Player>, sid: SocketId)
    requires DistinctSocketIds(players)
    ensures DistinctSocketIds(RemovePlayer(players, sid))
  {
    if sid in SocketIds(players) {
      var k :| 0 <= k < |players| && SocketIds(players)[k] == sid;
      RemovePlayerAt(players, k);
      var rest := players[..k] + players[k + 1..];
      forall i, j | 0 <= i < j < |rest| ensures rest[i].socketId != rest[j].socketId {
        SpliceAt(players, k, i);
        SpliceAt(players, k, j);
      }
    } else {
      RemovePlayerAbsent(players, sid);
    }
  }

  /** Filtering out one socket keeps every other socket listed and drops it. */
  lemma RemovePlayerMembers(players: seq<Player>, sid: SocketId, other: SocketId)
    ensures sid !in SocketIds(RemovePlayer(players, sid))
    ensures other != sid ==> (other in SocketIds(RemovePlayer(players, sid)) <==> other in SocketIds(players))
  {
    var rest := RemovePlayer(players, sid);
    if other != sid && other in SocketIds(players) {
      var o :| 0 <= o < |players| && SocketIds(players)[o] == other;
      assert players[o] in rest;
      var o' :| 0 <= o' < |rest| && rest[o'] == players[o];
      assert SocketIds(rest)[o'] == other;
    }
    if other != sid && other in SocketIds(rest) {
      var o :| 0 <= o < |rest| && SocketIds(rest)[o] == other;
      assert rest[o] in players;
      var o' :| 0 <= o' < |players| && players[o'] == rest[o];
      assert SocketIds(players)[o'] == other;
    }
  }

  /** When players remain, `leaveRoom` keeps the room's invariant (in
      particular the owner is still a member) and drops the leaving socket. */
  lemma DepartKeepsRoomOk(room: Room, sid: SocketId)
    requires RoomOk(room)
    requires Depart(room, sid).Some?
    ensures var after := Depart(room, sid).value;
      && RoomOk(after)
      && sid !in SocketIds(after.players)
      && after.id == room.id && after.code == room.code && after.state == room.state
      && after.owner == (if room.owner == sid then after.players[0].socketId else room.owner)
  {
    var after := Depart(room, sid).value;
    var rest := after.players;
    RemovePlayerKeepsDistinct(room.players, sid);
    RemovePlayerMembers(room.players, sid, room.owner);
    if room.owner == sid {
      assert SocketIds(rest)[0] == after.owner;
    }
    if room.state == Lobby {
      forall i | 0 <= i < |rest| ensures rest[i].role == None {
        assert rest[i] in room.players;
      }
    }
  }

  /** For a member, `leaveRoom` removes exactly that member's entry and keeps
      everybody else in order; for a non-member it changes no player. */
  lemma DepartKeepsOrder(room: Room, sid: SocketId)
    requires DistinctSocketIds(room.players)
    requires Depart(room, sid).Some?
    ensures sid in SocketIds(room.players) ==>
      exists k | 0 <= k < |room.players| ::
        room.players[k].socketId == sid && Depart(room, sid).value.players == room.players[..k] + room.players[k + 1..]
    ensures sid !in SocketIds(room.players) ==> Depart(room, sid).value.players == room.players
  {
    if sid in SocketIds(room.players) {
      var k :| 0 <= k < |room.players| && SocketIds(room.players)[k] == sid;
      RemovePlayerAt(room.players, k);
    } else {
      RemovePlayerAbsent(room.players, sid);
    }
  }

  /** `startGame` keeps the room's invariant, and from then on the projection
      shows every player a role from `ROLES`. */
  lemma StartKeepsRoomOk(before: Room, after: Room)
    requires RoomOk(before)
    requires StartedFrom(before, after)
    ensures RoomOk(after)
    ensures forall i | 0 <= i < |after.players| ::
      GameState(after).players[i].role.Some? && GameState(after).players[i].role.value in ROLES
  {
    assert SocketIds(after.players) == SocketIds(before.players);
  }

  /** The replay keeps the room's invariant and leaves the socket listed
      exactly once, without touching the players already there. */
  lemma ReplayKeepsRoomOk(room: Room, sid: SocketId, pseudo: Pseudo)
    requires RoomOk(room)
    ensures var after := Replay(room, sid, pseudo);
      && RoomOk(after)
      && sid in SocketIds(after.players)
      && after == room.(players := after.players)
      && after.players[..|room.players|] == room.players
  {
    var after := Replay(room, sid, pseudo);
    if sid !in SocketIds(room.players) {
      assert SocketIds(after.players) == SocketIds(room.players) + [sid];
    }
  }

  /** The replay does not check capacity: a reconnecting player is added to a
      room that is already at `MAX_PLAYERS_PER_ROOM`. */
  lemma ReplayIgnoresCapacity(room: Room, sid: SocketId, pseudo: Pseudo)
    requires |room.players| == MAX_PLAYERS_PER_ROOM
    requires sid !in SocketIds(room.players)
    ensures |Replay(room, sid, pseudo).players| == MAX_PLAYERS_PER_ROOM + 1
  {
  }

  /** Into a started room the replay adds the player without a role, and the
      projection shows that player none. */
  lemma ReplayIntoStartedRoomShowsNoRole(room: Room, sid: SocketId, pseudo: Pseudo)
    requires room.state == Started
    requires sid !in SocketIds(room.players)
    ensures var view := GameState(Replay(room, sid, pseudo));
      && view.state == Started
      && |view.players| == |room.players| + 1
      && view.players[|room.players|] == PlayerView(sid, pseudo, None)
  {
  }
}
