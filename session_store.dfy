/** The in-memory session store of the lobby server, and the helper that turns a
    flat list of stored fields back into a session record. */
module SessionStore {
  import opened Base

  /** The iteration order of a `Map` after `set(k, …)`: a key already present
      keeps its place, a new key goes last. */
  function Inserted<K(==)>(keys: seq<K>, k: K): seq<K> {
    if k in keys then keys else keys + [k]
  }

  /** A JavaScript `Map`: `sessions` holds the current value of every key and
      `keys` the order in which the keys were first inserted, the order in which
      the map yields its values. */
  class InMemorySessionStore<K(==,!new), V> {
    var sessions: map<K, V>
    var keys: seq<K>

    ghost predicate Valid()
      reads this
    {
      && (forall i, j | 0 <= i < j < |keys| :: keys[i] != keys[j])
      && (forall k :: k in sessions <==> k in keys)
    }

    constructor ()
      ensures Valid()
      ensures sessions == map[] && keys == []
    {
      sessions := map[];
      keys := [];
    }

    /** `findSession`: the record last saved under `id`, or nothing if `id` was
        never saved. */
    function FindSession(id: K): (r: Option<V>)
      reads this
      requires Valid()
      ensures r.None? <==> id !in keys
      ensures r.Some? ==> id in sessions && r.value == sessions[id]
    {
      if id in sessions then Some(sessions[id]) else None
    }

    /** `saveSession`: upsert. The record for `id` is replaced as a whole, a new
        key goes to the end of the iteration order, and no other key changes. */
    method SaveSession(id: K, session: V)
      requires Valid()
      modifies this
      ensures Valid()
      ensures FindSession(id) == Some(session)
      ensures forall k | k != id :: FindSession(k) == old(FindSession(k))
      ensures sessions == old(sessions)[id := session]
      ensures keys == Inserted(old(keys), id)
    {
      if id !in sessions {
        keys := keys + [id];
      }
      sessions := sessions[id := session];
    }

    /** `findAllSessions`: one value per stored key, the latest saved for it,
        in insertion order. */
    method FindAllSessions() returns (all: seq<V>)
      requires Valid()
      ensures |all| == |keys| == |sessions|
      ensures forall i | 0 <= i < |all| :: keys[i] in sessions && all[i] == sessions[keys[i]]
    {
      all := [];
      var i := 0;
      while i < |keys|
        invariant 0 <= i <= |keys|
        invariant |all| == i
        invariant forall j | 0 <= j < i :: keys[j] in sessions && all[j] == sessions[keys[j]]
      {
        all := all + [sessions[keys[i]]];
        i := i + 1;
      }
      DistinctKeysCount(keys, sessions);
    }
  }

  /** A duplicate-free key sequence that lists exactly the keys of a map is as
      long as the map is large. */
  lemma {:induction false} DistinctKeysCount<K(!new), V>(keys: seq<K>, m: map<K, V>)
    requires forall i, j | 0 <= i < j < |keys| :: keys[i] != keys[j]
    requires forall k :: k in m <==> k in keys
    ensures |keys| == |m|
  {
    if keys == [] {
      assert m.Keys == {};
    } else {
      var last := keys[|keys| - 1];
      var rest := keys[..|keys| - 1];
      var m' := map k | k in m && k != last :: m[k];
      forall k ensures k in m' <==> k in rest {
        if k in rest {
          var j :| 0 <= j < |rest| && rest[j] == k;
          assert keys[j] == k;
        }
        if k in keys && k != last {
          var j :| 0 <= j < |keys| && keys[j] == k;
          assert j < |keys| - 1;
          assert rest[j] == k;
        }
      }
      DistinctKeysCount(rest, m');
      assert m.Keys == m'.Keys + {last};
      assert last !in m'.Keys;
    }
  }

  /** The record `mapSession` builds from stored fields. */
  datatype MappedSession = MappedSession(id: string, username: Option<string>, roomId: Option<string>, connected: bool)

  /** `mapSession([id, username, roomId, connected])`: nothing when `id` is
      falsy; otherwise the fields, with `connected` read as the string "true". */
  function MapSession(id: Option<string>, username: Option<string>, roomId: Option<string>, connected: Option<string>): (r: Option<MappedSession>)
    ensures r.None? <==> !Truthy(id)
    ensures r.Some? ==> r.value.id == id.value && r.value.username == username && r.value.roomId == roomId
    ensures r.Some? ==> (r.value.connected <==> connected == Some("true"))
  {
    if Truthy(id) then Some(MappedSession(id.value, username, roomId, connected == Some("true"))) else None
  }
}
