/**
 * The room registry's data: `{room_id: {user_id: {'username', 'sid'}}}`.
 *
 * A Python dict keeps its keys in insertion order, and the registry's listings
 * and its disconnect scan depend on that order. Both levels of the registry are
 * therefore modelled as ordered association lists: a sequence of rooms, each
 * holding a sequence of user entries. A key look-up finds the first position
 * carrying the key; `WellFormed` states that keys are unique, as in a dict.
 */
module Rooms {
  import opened Wrappers

  type RoomId = string
  type UserId = string
  type Sid = string

  /** Maximum number of users in one room (mesh topology). */
  const Capacity: nat := 6

  /** One user of a room: `rooms[room_id][user_id] == {'username': .., 'sid': ..}`. */
  datatype Entry = Entry(userId: UserId, username: string, sid: Sid)

  /** One room with its users in insertion order. */
  datatype Room = Room(id: RoomId, users: seq<Entry>)

  predicate Distinct<K(==)>(keys: seq<K>)
  {
    forall i, j :: 0 <= i < j < |keys| ==> keys[i] != keys[j]
  }

  /** The sequence with position `i` deleted. */
  function Without<T>(s: seq<T>, i: nat): seq<T>
    requires i < |s|
  {
    s[..i] + s[i + 1..]
  }

  function RoomIds(rooms: seq<Room>): seq<RoomId>
  {
    seq(|rooms|, k requires 0 <= k < |rooms| => rooms[k].id)
  }

  function UserIds(users: seq<Entry>): seq<UserId>
  {
    seq(|users|, l requires 0 <= l < |users| => users[l].userId)
  }

  function Sids(users: seq<Entry>): seq<Sid>
  {
    seq(|users|, l requires 0 <= l < |users| => users[l].sid)
  }

  /** The registry holds a dict of dicts: room ids are unique, and user ids are unique within a room. */
  predicate WellFormed(rooms: seq<Room>)
  {
    Distinct(RoomIds(rooms)) &&
    forall k :: 0 <= k < |rooms| ==> Distinct(UserIds(rooms[k].users))
  }

  /** Every stored room is non-empty and within capacity. */
  predicate Bounded(rooms: seq<Room>)
  {
    forall k :: 0 <= k < |rooms| ==> 0 < |rooms[k].users| <= Capacity
  }

  predicate Valid(rooms: seq<Room>)
  {
    WellFormed(rooms) && Bounded(rooms)
  }

  // ---------------------------------------------------------------------------
  // Key look-up
  // ---------------------------------------------------------------------------

  /** The first position at or after `from` that holds `key`, or `|keys|` if there is none. */
  function FindFrom<K(==)>(keys: seq<K>, key: K, from: nat): (k: nat)
    requires from <= |keys|
    ensures from <= k <= |keys|
    ensures k < |keys| ==> keys[k] == key
    ensures forall m :: from <= m < k ==> keys[m] != key
    decreases |keys| - from
  {
    if from == |keys| then from
    else if keys[from] == key then from
    else FindFrom(keys, key, from + 1)
  }

  /** The position of `key` (`key in d`), or `|keys|` when it is absent. */
  function Find<K(==)>(keys: seq<K>, key: K): (k: nat)
    ensures k <= |keys|
    ensures k < |keys| ==> keys[k] == key
    ensures forall m :: 0 <= m < k ==> keys[m] != key
    ensures k < |keys| <==> key in keys
  {
    FindFrom(keys, key, 0)
  }

  /** `Find` is determined by its contract. */
  lemma FindIs<K>(keys: seq<K>, key: K, k: nat)
    requires k <= |keys|
    requires k < |keys| ==> keys[k] == key
    requires forall m :: 0 <= m < k ==> keys[m] != key
    ensures Find(keys, key) == k
  {
  }

  lemma FindDistinct<K>(keys: seq<K>, k: nat)
    requires Distinct(keys) && k < |keys|
    ensures Find(keys, keys[k]) == k
  {
  }

  lemma FindAppend<K>(keys: seq<K>, x: K, key: K)
    ensures Find(keys + [x], key) ==
              if key in keys then Find(keys, key) else if key == x then |keys| else |keys| + 1
  {
    var ks := keys + [x];
    var k := if key in keys then Find(keys, key) else if key == x then |keys| else |keys| + 1;
    forall m | 0 <= m < k
      ensures ks[m] != key
    {
      if m < |keys| {
        assert ks[m] == keys[m];
      }
    }
    FindIs(ks, key, k);
  }

  lemma FindWithout<K>(keys: seq<K>, i: nat, key: K)
    requires i < |keys| && key != keys[i]
    ensures Find(Without(keys, i), key) == if Find(keys, key) < i then Find(keys, key) else Find(keys, key) - 1
  {
    var f := Find(keys, key);
    var ks := Without(keys, i);
    var k := if f < i then f else f - 1;
    forall m | 0 <= m < k
      ensures ks[m] != key
    {
      if m < i {
        assert ks[m] == keys[m];
      } else {
        assert ks[m] == keys[m + 1];
      }
    }
    if f < |keys| {
      assert ks[k] == keys[f];
    }
    FindIs(ks, key, k);
  }

  lemma DistinctWithout<K>(keys: seq<K>, i: nat)
    requires Distinct(keys) && i < |keys|
    ensures Distinct(Without(keys, i))
    ensures keys[i] !in Without(keys, i)
  {
  }

  lemma UserIdsWithout(users: seq<Entry>, l: nat)
    requires l < |users|
    ensures UserIds(Without(users, l)) == Without(UserIds(users), l)
  {
  }

  lemma RoomIdsWithout(rooms: seq<Room>, k: nat)
    requires k < |rooms|
    ensures RoomIds(Without(rooms, k)) == Without(RoomIds(rooms), k)
  {
  }

  // ---------------------------------------------------------------------------
  // Reading the registry
  // ---------------------------------------------------------------------------

  /** `room_id in rooms`. */
  predicate HasRoom(rooms: seq<Room>, id: RoomId)
  {
    id in RoomIds(rooms)
  }

  /** `rooms[room_id]`, its entries in insertion order; no entries when the room is absent. */
  function Members(rooms: seq<Room>, id: RoomId): (m: seq<Entry>)
    ensures HasRoom(rooms, id) ==> Room(id, m) in rooms
    ensures !HasRoom(rooms, id) ==> m == []
  {
    var k := Find(RoomIds(rooms), id);
    if k < |rooms| then rooms[k].users else []
  }

  /** `room[user_id]` for a room given by its entries. */
  function Get(users: seq<Entry>, uid: UserId): (g: Option<Entry>)
    ensures g.Some? <==> uid in UserIds(users)
    ensures g.Some? ==> g.value in users && g.value.userId == uid
  {
    var l := Find(UserIds(users), uid);
    if l < |users| then Some(users[l]) else None
  }

  /** `rooms[room_id][user_id]`, if both keys are present. */
  function Lookup(rooms: seq<Room>, id: RoomId, uid: UserId): (g: Option<Entry>)
    ensures g.Some? <==> HasRoom(rooms, id) && uid in UserIds(Members(rooms, id))
    ensures g.Some? ==> g.value.userId == uid && g.value in Members(rooms, id)
  {
    Get(Members(rooms, id), uid)
  }

  lemma LookupAt(rooms: seq<Room>, k: nat, l: nat)
    requires WellFormed(rooms) && k < |rooms| && l < |rooms[k].users|
    ensures Members(rooms, rooms[k].id) == rooms[k].users
    ensures Lookup(rooms, rooms[k].id, rooms[k].users[l].userId) == Some(rooms[k].users[l])
  {
    FindDistinct(RoomIds(rooms), k);
    FindDistinct(UserIds(rooms[k].users), l);
  }

  lemma LookupSome(rooms: seq<Room>, id: RoomId, uid: UserId)
    requires Lookup(rooms, id, uid).Some?
    ensures Find(RoomIds(rooms), id) < |rooms|
    ensures rooms[Find(RoomIds(rooms), id)].id == id
    ensures Find(UserIds(rooms[Find(RoomIds(rooms), id)].users), uid) < |rooms[Find(RoomIds(rooms), id)].users|
    ensures rooms[Find(RoomIds(rooms), id)].users[Find(UserIds(rooms[Find(RoomIds(rooms), id)].users), uid)]
              == Lookup(rooms, id, uid).value
  {
  }

  // ---------------------------------------------------------------------------
  // Writing the registry
  // ---------------------------------------------------------------------------

  /** `room[e.userId] = {...}`: overwrites an existing key in place, or appends a new one. */
  function PutUser(users: seq<Entry>, e: Entry): (r: seq<Entry>)
    ensures e in r
    ensures |r| == |users| + (if e.userId in UserIds(users) then 0 else 1)
  {
    var l := Find(UserIds(users), e.userId);
    if l < |users| then assert users[l := e][l] == e; users[l := e]
    else assert (users + [e])[|users|] == e; users + [e]
  }

  /** `rooms[room_id] = users`: overwrites an existing key in place, or appends a new one. */
  function PutRoom(rooms: seq<Room>, id: RoomId, users: seq<Entry>): (r: seq<Room>)
    ensures Room(id, users) in r && HasRoom(r, id)
    ensures |r| == |rooms| + (if HasRoom(rooms, id) then 0 else 1)
  {
    var k := Find(RoomIds(rooms), id);
    var r := if k < |rooms| then rooms[k := Room(id, users)] else rooms + [Room(id, users)];
    var at := if k < |rooms| then k else |rooms|;
    assert r[at] == Room(id, users) && RoomIds(r)[at] == id;
    r
  }

  lemma PutUserGet(users: seq<Entry>, e: Entry)
    ensures Get(PutUser(users, e), e.userId) == Some(e)
    ensures forall u :: u != e.userId ==> Get(PutUser(users, e), u) == Get(users, u)
    ensures UserIds(PutUser(users, e)) ==
              UserIds(users) + (if e.userId in UserIds(users) then [] else [e.userId])
    ensures Distinct(UserIds(users)) ==> Distinct(UserIds(PutUser(users, e)))
  {
    var ids := UserIds(users);
    var l := Find(ids, e.userId);
    var put := PutUser(users, e);
    if l < |users| {
      assert UserIds(put) == ids;
    } else {
      assert UserIds(put) == ids + [e.userId];
      forall u
        ensures Find(UserIds(put), u) == if u in ids then Find(ids, u) else if u == e.userId then |ids| else |ids| + 1
      {
        FindAppend(ids, e.userId, u);
      }
    }
  }

  lemma PutRoomMembers(rooms: seq<Room>, id: RoomId, users: seq<Entry>)
    ensures Members(PutRoom(rooms, id, users), id) == users
    ensures forall r :: r != id ==> Members(PutRoom(rooms, id, users), r) == Members(rooms, r)
    ensures RoomIds(PutRoom(rooms, id, users)) ==
              RoomIds(rooms) + (if id in RoomIds(rooms) then [] else [id])
    ensures Distinct(RoomIds(rooms)) ==> Distinct(RoomIds(PutRoom(rooms, id, users)))
  {
    var ids := RoomIds(rooms);
    var k := Find(ids, id);
    var put := PutRoom(rooms, id, users);
    if k < |rooms| {
      assert RoomIds(put) == ids;
    } else {
      assert RoomIds(put) == ids + [id];
      forall r
        ensures Find(RoomIds(put), r) == if r in ids then Find(ids, r) else if r == id then |ids| else |ids| + 1
      {
        FindAppend(ids, id, r);
      }
    }
  }

  lemma GetWithout(users: seq<Entry>, l: nat)
    requires l < |users|
    ensures forall u :: u != users[l].userId ==> Get(Without(users, l), u) == Get(users, u)
    ensures Distinct(UserIds(users)) ==>
              Get(Without(users, l), users[l].userId) == None && Distinct(UserIds(Without(users, l)))
  {
    var ids := UserIds(users);
    var rest := Without(users, l);
    UserIdsWithout(users, l);
    forall u | u != users[l].userId
      ensures Get(rest, u) == Get(users, u)
    {
      FindWithout(ids, l, u);
      var f := Find(ids, u);
      if f < |users| {
        if f < l {
          assert rest[f] == users[f];
        } else {
          assert rest[f - 1] == users[f];
        }
      }
    }
    if Distinct(ids) {
      DistinctWithout(ids, l);
    }
  }

  lemma MembersWithout(rooms: seq<Room>, k: nat)
    requires k < |rooms|
    ensures forall r :: r != rooms[k].id ==> Members(Without(rooms, k), r) == Members(rooms, r)
    ensures Distinct(RoomIds(rooms)) ==>
              !HasRoom(Without(rooms, k), rooms[k].id) && Distinct(RoomIds(Without(rooms, k)))
  {
    var ids := RoomIds(rooms);
    var rest := Without(rooms, k);
    RoomIdsWithout(rooms, k);
    forall r | r != rooms[k].id
      ensures Members(rest, r) == Members(rooms, r)
    {
      FindWithout(ids, k, r);
      var f := Find(ids, r);
      if f < |rooms| {
        if f < k {
          assert rest[f] == rooms[f];
        } else {
          assert rest[f - 1] == rooms[f];
        }
      }
    }
    if Distinct(ids) {
      DistinctWithout(ids, k);
    }
  }

  lemma MembersReplace(rooms: seq<Room>, k: nat, users: seq<Entry>)
    requires Distinct(RoomIds(rooms)) && k < |rooms|
    ensures Members(rooms[k := Room(rooms[k].id, users)], rooms[k].id) == users
    ensures forall r :: r != rooms[k].id ==> Members(rooms[k := Room(rooms[k].id, users)], r) == Members(rooms, r)
    ensures RoomIds(rooms[k := Room(rooms[k].id, users)]) == RoomIds(rooms)
  {
    var upd := rooms[k := Room(rooms[k].id, users)];
    assert RoomIds(upd) == RoomIds(rooms);
    FindDistinct(RoomIds(rooms), k);
  }

}
