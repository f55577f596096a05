/**
 * The module-level `rooms` dict and the handlers that change it in place.
 * Each method performs the source's steps in the source's order and is
 * proved to end in the state, with the outbox, that the corresponding
 * `Signaling` function describes; the registry invariant (`Rooms.Valid`:
 * unique keys, every room non-empty and within capacity) is kept by all.
 */
module Server {
  import opened Rooms
  import opened Events
  import Signaling

  class Registry {
    var rooms: seq<Room>

    ghost predicate Valid()
      reads this
    {
      Rooms.Valid(rooms)
    }

    /** `rooms = {}`. */
    constructor ()
      ensures Valid() && rooms == []
    {
      rooms := [];
    }

    /** `handle_join_room`. */
    method Join(roomId: RoomId, userId: UserId, username: string, sid: Sid) returns (out: seq<Emit>)
      requires Valid()
      modifies this
      ensures Valid()
      ensures Signaling.Step(rooms, out) == Signaling.Join(old(rooms), roomId, userId, username, sid)
    {
      Signaling.JoinPreservesValid(rooms, roomId, userId, username, sid);
      var k := Find(RoomIds(rooms), roomId);
      if k == |rooms| {
        // `rooms[room_id] = {}`, before the capacity check
        rooms := rooms + [Room(roomId, [])];
      }
      if |rooms[k].users| >= Capacity {
        out := [Emit("room-full", Sender, RoomFull(Signaling.RoomFullMessage))];
        return;
      }
      var existing := Signaling.Summaries(rooms[k].users);
      rooms := rooms[k := Room(roomId, PutUser(rooms[k].users, Entry(userId, username, sid)))];
      out := [Emit("existing-users", Sender, ExistingUsers(existing)),
              Emit("user-joined", ToRoomExcept(roomId, sid), UserJoined(userId, username))];
      assert rooms == Signaling.Join(old(rooms), roomId, userId, username, sid).rooms;
    }

    /** `handle_leave_room`. */
    method Leave(roomId: RoomId, userId: UserId) returns (out: seq<Emit>)
      requires Valid()
      modifies this
      ensures Valid()
      ensures Signaling.Step(rooms, out) == Signaling.Leave(old(rooms), roomId, userId)
    {
      Signaling.LeavePreservesValid(rooms, roomId, userId);
      out := [];
      var k := Find(RoomIds(rooms), roomId);
      if k < |rooms| {
        var users := rooms[k].users;
        var l := Find(UserIds(users), userId);
        if l < |users| {
          var e := users[l];
          ghost var before := rooms;
          rooms := rooms[k := Room(roomId, Without(users, l))];
          out := [Emit("user-left", ToRoom(roomId), UserLeft(userId, e.username))];
          if rooms[k].users == [] {
            rooms := Without(rooms, k);
            assert rooms == Without(before, k);
          }
        }
      }
    }

    /** `handle_disconnect`: scans rooms, then users, in insertion order and removes the first entry under `sid`. */
    method Disconnect(sid: Sid) returns (out: seq<Emit>)
      requires Valid()
      modifies this
      ensures Valid()
      ensures Signaling.Step(rooms, out) == Signaling.Disconnect(old(rooms), sid)
    {
      Signaling.DisconnectPreservesValid(rooms, sid);
      var k := 0;
      while k < |rooms|
        invariant k <= |rooms|
        invariant rooms == old(rooms)
        invariant forall k': nat, l': nat :: k' < k ==> !Signaling.HoldsSid(rooms, sid, k', l')
      {
        var users := rooms[k].users;
        var l := 0;
        while l < |users|
          invariant l <= |users|
          invariant forall l': nat :: l' < l ==> users[l'].sid != sid
        {
          if users[l].sid == sid {
            Signaling.FirstWithSidIs(rooms, sid, Signaling.Pos(k, l));
            var id, e := rooms[k].id, users[l];
            ghost var before := rooms;
            rooms := rooms[k := Room(id, Without(users, l))];
            out := [Emit("user-left", ToRoom(id), UserLeft(e.userId, e.username))];
            if rooms[k].users == [] {
              rooms := Without(rooms, k);
              assert rooms == Without(before, k);
            }
            return;
          }
          l := l + 1;
        }
        k := k + 1;
      }
      out := [];
    }
  }

}
