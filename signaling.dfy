/**
 * The Socket.IO event handlers of the signaling server, each as a function of
 * the registry state. A handler that changes the registry yields a `Step`: the
 * new `rooms` and the outbox of emitted events. The relay handlers and the
 * room-info query only read the registry, so they yield an outbox alone.
 *
 * The lemmas below state what each handler promises; `Server.Registry`
 * implements the state-changing handlers in place and is proved equal to
 * these functions.
 */
module Signaling {
  import opened Wrappers
  import opened Rooms
  import opened Events

  datatype Step = Step(rooms: seq<Room>, out: seq<Emit>)

  const RoomFullMessage: string := "Room is full (max 6 users)"

  /** The existing-users listing: `[{'userId': uid, 'username': ..} for uid, info in room.items()]`. */
  function Summaries(users: seq<Entry>): seq<UserSummary>
  {
    seq(|users|, l requires 0 <= l < |users| => UserSummary(users[l].userId, users[l].username))
  }

  /** `[info['username'] for info in room.values()]`. */
  function Usernames(users: seq<Entry>): seq<string>
  {
    seq(|users|, l requires 0 <= l < |users| => users[l].username)
  }

  // ---------------------------------------------------------------------------
  // join-room
  // ---------------------------------------------------------------------------

  /**
   * `join-room`: a room at capacity rejects the joiner; otherwise the joiner
   * is told the users present before it, is stored under its user id (the
   * room being created if absent), and the room hears of it.
   */
  function Join(rooms: seq<Room>, roomId: RoomId, userId: UserId, username: string, sid: Sid): (s: Step)
    ensures |s.out| == (if |Members(rooms, roomId)| >= Capacity then 1 else 2)
    ensures s.out[0].to == Sender
    ensures HasRoom(s.rooms, roomId) <==> HasRoom(rooms, roomId) || |Members(rooms, roomId)| < Capacity
  {
    var existing := Members(rooms, roomId);
    if |existing| >= Capacity then
      Step(rooms, [Emit("room-full", Sender, RoomFull(RoomFullMessage))])
    else
      Step(PutRoom(rooms, roomId, PutUser(existing, Entry(userId, username, sid))),
           [Emit("existing-users", Sender, ExistingUsers(Summaries(existing))),
            Emit("user-joined", ToRoomExcept(roomId, sid), UserJoined(userId, username))])
  }

  lemma JoinCapacity(rooms: seq<Room>, roomId: RoomId, userId: UserId, username: string, sid: Sid)
    ensures Join(rooms, roomId, userId, username, sid).out == [Emit("room-full", Sender, RoomFull(RoomFullMessage))]
            <==> |Members(rooms, roomId)| >= Capacity
    ensures |Members(rooms, roomId)| >= Capacity ==> Join(rooms, roomId, userId, username, sid).rooms == rooms
    ensures !HasRoom(rooms, roomId) ==>
              Join(rooms, roomId, userId, username, sid).out[0] == Emit("existing-users", Sender, ExistingUsers([]))
  {
    if !HasRoom(rooms, roomId) {
      assert Members(rooms, roomId) == [];
      assert Summaries([]) == [];
    }
  }

  lemma JoinStores(rooms: seq<Room>, roomId: RoomId, userId: UserId, username: string, sid: Sid)
    requires |Members(rooms, roomId)| < Capacity
    ensures var s := Join(rooms, roomId, userId, username, sid);
            && Lookup(s.rooms, roomId, userId) == Some(Entry(userId, username, sid))
            && (forall r, u :: (r, u) != (roomId, userId) ==> Lookup(s.rooms, r, u) == Lookup(rooms, r, u))
            && (forall r :: r != roomId ==> Members(s.rooms, r) == Members(rooms, r))
            && UserIds(Members(s.rooms, roomId)) ==
                 UserIds(Members(rooms, roomId)) + (if Lookup(rooms, roomId, userId).Some? then [] else [userId])
            && RoomIds(s.rooms) == RoomIds(rooms) + (if HasRoom(rooms, roomId) then [] else [roomId])
  {
    var existing := Members(rooms, roomId);
    var e := Entry(userId, username, sid);
    var users := PutUser(existing, e);
    PutUserGet(existing, e);
    PutRoomMembers(rooms, roomId, users);
  }

  lemma JoinExistingUsers(rooms: seq<Room>, roomId: RoomId, userId: UserId, username: string, sid: Sid)
    requires |Members(rooms, roomId)| < Capacity
    ensures var s := Join(rooms, roomId, userId, username, sid);
            && s.out == [Emit("existing-users", Sender, ExistingUsers(Summaries(Members(rooms, roomId)))),
                         Emit("user-joined", ToRoomExcept(roomId, sid), UserJoined(userId, username))]
            && |Members(s.rooms, roomId)| ==
                 |s.out[0].payload.users| + (if Lookup(rooms, roomId, userId).Some? then 0 else 1)
  {
    JoinStores(rooms, roomId, userId, username, sid);
  }

  lemma JoinPreservesValid(rooms: seq<Room>, roomId: RoomId, userId: UserId, username: string, sid: Sid)
    requires Valid(rooms)
    ensures Valid(Join(rooms, roomId, userId, username, sid).rooms)
  {
    var existing := Members(rooms, roomId);
    if |existing| < Capacity {
      var users := PutUser(existing, Entry(userId, username, sid));
      PutUserGet(existing, Entry(userId, username, sid));
      PutRoomMembers(rooms, roomId, users);
      var k := Find(RoomIds(rooms), roomId);
      var after := PutRoom(rooms, roomId, users);
      assert |users| == |UserIds(users)|;
      forall m | 0 <= m < |after|
        ensures Distinct(UserIds(after[m].users)) && 0 < |after[m].users| <= Capacity
      {
        if m == k {
          assert after[m].users == users;
        } else {
          assert after[m] == rooms[m];
        }
      }
    }
  }

  // ---------------------------------------------------------------------------
  // leave-room and disconnect
  // ---------------------------------------------------------------------------

  /**
   * Removal of the user at position `l` of room `k`, shared by `leave-room`
   * and `disconnect`: `del room[user_id]`, `user-left` to the room, and the
   * room deleted if it became empty.
   */
  function RemoveAt(rooms: seq<Room>, k: nat, l: nat): (s: Step)
    requires k < |rooms| && l < |rooms[k].users|
    ensures |s.out| == 1 && s.out[0].to == ToRoom(rooms[k].id)
    ensures |s.rooms| == |rooms| - (if |rooms[k].users| == 1 then 1 else 0)
  {
    var room := rooms[k];
    var e := room.users[l];
    var rest := Without(room.users, l);
    Step(if rest == [] then Without(rooms, k) else rooms[k := Room(room.id, rest)],
         [Emit("user-left", ToRoom(room.id), UserLeft(e.userId, e.username))])
  }

  lemma RemoveAtEffect(rooms: seq<Room>, k: nat, l: nat)
    requires WellFormed(rooms) && k < |rooms| && l < |rooms[k].users|
    ensures var s := RemoveAt(rooms, k, l);
            var id := rooms[k].id;
            var e := rooms[k].users[l];
            && s.out == [Emit("user-left", ToRoom(id), UserLeft(e.userId, e.username))]
            && Lookup(s.rooms, id, e.userId) == None
            && (forall r, u :: (r, u) != (id, e.userId) ==> Lookup(s.rooms, r, u) == Lookup(rooms, r, u))
            && (forall r :: r != id ==> Members(s.rooms, r) == Members(rooms, r))
            && Members(s.rooms, id) == Without(rooms[k].users, l)
            && (HasRoom(s.rooms, id) <==> |rooms[k].users| > 1)
            && WellFormed(s.rooms)
            && (Bounded(rooms) ==> Bounded(s.rooms))
  {
    var id := rooms[k].id;
    var users := rooms[k].users;
    var rest := Without(users, l);
    var after := RemoveAt(rooms, k, l).rooms;
    LookupAt(rooms, k, l);
    GetWithout(users, l);
    assert RoomIds(rooms)[k] == id;
    if rest == [] {
      MembersWithout(rooms, k);
      forall m | 0 <= m < |after|
        ensures after[m] == rooms[if m < k then m else m + 1]
      {
      }
    } else {
      MembersReplace(rooms, k, rest);
      forall m | 0 <= m < |after| && m != k
        ensures after[m] == rooms[m]
      {
      }
    }
  }

  /** Removal keeps the order of the remaining room keys, as `del` on a dict does. */
  lemma RemoveAtKeyOrder(rooms: seq<Room>, k: nat, l: nat)
    requires k < |rooms| && l < |rooms[k].users|
    ensures RoomIds(RemoveAt(rooms, k, l).rooms) ==
              if |rooms[k].users| > 1 then RoomIds(rooms) else Without(RoomIds(rooms), k)
  {
    var rest := Without(rooms[k].users, l);
    if rest == [] {
      RoomIdsWithout(rooms, k);
    } else {
      assert RoomIds(rooms[k := Room(rooms[k].id, rest)]) == RoomIds(rooms);
    }
  }

  /** `leave-room`: removes `rooms[room_id][user_id]` when both keys are present; otherwise does nothing. */
  function Leave(rooms: seq<Room>, roomId: RoomId, userId: UserId): (s: Step)
    ensures |s.out| <= 1
    ensures s.out != [] <==> Lookup(rooms, roomId, userId).Some?
  {
    var k := Find(RoomIds(rooms), roomId);
    if k < |rooms| then
      var l := Find(UserIds(rooms[k].users), userId);
      if l < |rooms[k].users| then RemoveAt(rooms, k, l) else Step(rooms, [])
    else
      Step(rooms, [])
  }

  lemma LeaveAbsent(rooms: seq<Room>, roomId: RoomId, userId: UserId)
    requires Lookup(rooms, roomId, userId) == None
    ensures Leave(rooms, roomId, userId) == Step(rooms, [])
  {
  }

  lemma LeavePresent(rooms: seq<Room>, roomId: RoomId, userId: UserId)
    requires WellFormed(rooms) && Lookup(rooms, roomId, userId).Some?
    ensures var s := Leave(rooms, roomId, userId);
            var e := Lookup(rooms, roomId, userId).value;
            && s.out == [Emit("user-left", ToRoom(roomId), UserLeft(userId, e.username))]
            && Lookup(s.rooms, roomId, userId) == None
            && (forall r, u :: (r, u) != (roomId, userId) ==> Lookup(s.rooms, r, u) == Lookup(rooms, r, u))
            && Members(s.rooms, roomId) == Without(Members(rooms, roomId), Find(UserIds(Members(rooms, roomId)), userId))
            && (forall r :: r != roomId ==> Members(s.rooms, r) == Members(rooms, r))
            && (HasRoom(s.rooms, roomId) <==> |Members(rooms, roomId)| > 1)
            && RoomIds(s.rooms) ==
                 (if |Members(rooms, roomId)| > 1 then RoomIds(rooms)
                  else Without(RoomIds(rooms), Find(RoomIds(rooms), roomId)))
  {
    LookupSome(rooms, roomId, userId);
    var k := Find(RoomIds(rooms), roomId);
    var l := Find(UserIds(Members(rooms, roomId)), userId);
    RemoveAtEffect(rooms, k, l);
    RemoveAtKeyOrder(rooms, k, l);
  }

  lemma LeavePreservesValid(rooms: seq<Room>, roomId: RoomId, userId: UserId)
    requires Valid(rooms)
    ensures Valid(Leave(rooms, roomId, userId).rooms)
  {
    var k := Find(RoomIds(rooms), roomId);
    if k < |rooms| {
      var l := Find(UserIds(rooms[k].users), userId);
      if l < |rooms[k].users| {
        RemoveAtEffect(rooms, k, l);
      }
    }
  }

  /** Position of a user entry: room index, then user index within the room. */
  datatype Pos = Pos(room: nat, user: nat)

  /** `rooms[k].users[l]` exists and is registered under `sid`. */
  predicate HoldsSid(rooms: seq<Room>, sid: Sid, k: nat, l: nat)
  {
    k < |rooms| && l < |rooms[k].users| && rooms[k].users[l].sid == sid
  }

  /** `a` comes before `b` in the disconnect scan: rooms in insertion order, then users in insertion order. */
  predicate Before(a: Pos, b: Pos)
  {
    a.room < b.room || (a.room == b.room && a.user < b.user)
  }

  /** The first entry, at room `from` or later, that `disconnect` would find for `sid`. */
  function FirstWithSidFrom(rooms: seq<Room>, sid: Sid, from: nat): (p: Option<Pos>)
    requires from <= |rooms|
    ensures p.Some? ==> from <= p.value.room && HoldsSid(rooms, sid, p.value.room, p.value.user)
    ensures p.Some? ==>
              forall k: nat, l: nat :: from <= k && HoldsSid(rooms, sid, k, l) ==> !Before(Pos(k, l), p.value)
    ensures p.None? ==> forall k: nat, l: nat :: from <= k ==> !HoldsSid(rooms, sid, k, l)
    decreases |rooms| - from
  {
    if from == |rooms| then None
    else
      var users := rooms[from].users;
      var l := Find(Sids(users), sid);
      assert forall m :: 0 <= m < |users| ==> Sids(users)[m] == users[m].sid;
      if l < |users| then Some(Pos(from, l))
      else FirstWithSidFrom(rooms, sid, from + 1)
  }

  /** The entry `disconnect` removes for `sid`: the first one registered under it, in scan order. */
  function FirstWithSid(rooms: seq<Room>, sid: Sid): (p: Option<Pos>)
    ensures p.Some? ==> HoldsSid(rooms, sid, p.value.room, p.value.user)
    ensures p.Some? ==> forall k: nat, l: nat :: HoldsSid(rooms, sid, k, l) ==> !Before(Pos(k, l), p.value)
    ensures p.None? <==> forall k: nat, l: nat :: !HoldsSid(rooms, sid, k, l)
  {
    FirstWithSidFrom(rooms, sid, 0)
  }

  /** The scan's answer is the unique matching position with no match before it. */
  lemma FirstWithSidIs(rooms: seq<Room>, sid: Sid, p: Pos)
    requires HoldsSid(rooms, sid, p.room, p.user)
    requires forall k: nat, l: nat :: HoldsSid(rooms, sid, k, l) ==> !Before(Pos(k, l), p)
    ensures FirstWithSid(rooms, sid) == Some(p)
  {
  }

  /** `disconnect`: removes the first entry registered under `sid`, if any. */
  function Disconnect(rooms: seq<Room>, sid: Sid): (s: Step)
    ensures |s.out| <= 1
    ensures s.out != [] <==> exists k: nat, l: nat :: HoldsSid(rooms, sid, k, l)
  {
    match FirstWithSid(rooms, sid)
    case None => Step(rooms, [])
    case Some(p) => RemoveAt(rooms, p.room, p.user)
  }

  lemma DisconnectWithoutMatch(rooms: seq<Room>, sid: Sid)
    requires forall k: nat, l: nat :: !HoldsSid(rooms, sid, k, l)
    ensures Disconnect(rooms, sid) == Step(rooms, [])
  {
  }

  /** Disconnecting is leaving, on behalf of the first entry registered under the connection's sid. */
  lemma DisconnectIsLeave(rooms: seq<Room>, sid: Sid)
    requires WellFormed(rooms) && FirstWithSid(rooms, sid).Some?
    ensures var p := FirstWithSid(rooms, sid).value;
            var e := rooms[p.room].users[p.user];
            && e.sid == sid
            && Lookup(rooms, rooms[p.room].id, e.userId) == Some(e)
            && Disconnect(rooms, sid) == Leave(rooms, rooms[p.room].id, e.userId)
  {
    var p := FirstWithSid(rooms, sid).value;
    LookupAt(rooms, p.room, p.user);
    FindDistinct(RoomIds(rooms), p.room);
    FindDistinct(UserIds(rooms[p.room].users), p.user);
  }

  lemma DisconnectPreservesValid(rooms: seq<Room>, sid: Sid)
    requires Valid(rooms)
    ensures Valid(Disconnect(rooms, sid).rooms)
  {
    var p := FirstWithSid(rooms, sid);
    if p.Some? {
      RemoveAtEffect(rooms, p.value.room, p.value.user);
    }
  }

  /** At most one entry is registered under `sid`. */
  ghost predicate SidHeldAtMostOnce(rooms: seq<Room>, sid: Sid)
  {
    forall k: nat, l: nat, k': nat, l': nat ::
      HoldsSid(rooms, sid, k, l) && HoldsSid(rooms, sid, k', l') ==> k == k' && l == l'
  }

  /** When a connection holds at most one entry, a repeated disconnect is a no-op. */
  lemma DisconnectTwice(rooms: seq<Room>, sid: Sid)
    requires WellFormed(rooms) && SidHeldAtMostOnce(rooms, sid)
    ensures var once := Disconnect(rooms, sid);
            && (forall k: nat, l: nat :: !HoldsSid(once.rooms, sid, k, l))
            && Disconnect(once.rooms, sid) == Step(once.rooms, [])
  {
    var once := Disconnect(rooms, sid);
    var p := FirstWithSid(rooms, sid);
    if p.Some? {
      var pr, pu := p.value.room, p.value.user;
      var id, e := rooms[pr].id, rooms[pr].users[pu];
      RemoveAtEffect(rooms, pr, pu);
      forall k: nat, l: nat
        ensures !HoldsSid(once.rooms, sid, k, l)
      {
        if HoldsSid(once.rooms, sid, k, l) {
          var r, f := once.rooms[k].id, once.rooms[k].users[l];
          LookupAt(once.rooms, k, l);
          assert (r, f.userId) != (id, e.userId);
          assert Lookup(rooms, r, f.userId) == Some(f);
          LookupSome(rooms, r, f.userId);
          var k0 := Find(RoomIds(rooms), r);
          var l0 := Find(UserIds(rooms[k0].users), f.userId);
          assert HoldsSid(rooms, sid, k0, l0);
          assert false;
        }
      }
    }
    DisconnectWithoutMatch(once.rooms, sid);
  }

  /**
   * Disconnect removes one entry only: a connection registered twice (the
   * join handler does not stop one sid from joining two rooms) stays
   * registered after its disconnect, and a further disconnect changes the
   * registry again.
   */
  lemma DisconnectLeavesSecondEntry()
    ensures var rooms := [Room("a", [Entry("u", "Ann", "s")]), Room("b", [Entry("u", "Ann", "s")])];
            var once := Disconnect(rooms, "s");
            && once.rooms == [Room("b", [Entry("u", "Ann", "s")])]
            && HoldsSid(once.rooms, "s", 0, 0)
            && Disconnect(once.rooms, "s") == Step([], [Emit("user-left", ToRoom("b"), UserLeft("u", "Ann"))])
  {
  }

  // ---------------------------------------------------------------------------
  // Relays and the room-info query (read-only)
  // ---------------------------------------------------------------------------

  /** One message to the stored sid of `rooms[room_id][target_user_id]` when both keys are present; none otherwise. */
  function Deliver(rooms: seq<Room>, roomId: RoomId, targetUserId: UserId, event: string, payload: Payload): (out: seq<Emit>)
    ensures out != [] <==> HasRoom(rooms, roomId) && targetUserId in UserIds(Members(rooms, roomId))
    ensures out != [] ==> Lookup(rooms, roomId, targetUserId).Some? &&
                          out == [Emit(event, ToSid(Lookup(rooms, roomId, targetUserId).value.sid), payload)]
  {
    match Lookup(rooms, roomId, targetUserId)
    case None => []
    case Some(target) => [Emit(event, ToSid(target.sid), payload)]
  }

  /** `offer`: relays the SDP offer with the sender's id and username to the target. */
  function RelayOffer(rooms: seq<Room>, roomId: RoomId, targetUserId: UserId,
                      offer: string, fromUserId: UserId, fromUsername: string): (out: seq<Emit>)
    ensures out != [] <==> HasRoom(rooms, roomId) && targetUserId in UserIds(Members(rooms, roomId))
    ensures out != [] ==> Lookup(rooms, roomId, targetUserId).Some? &&
                          out == [Emit("offer", ToSid(Lookup(rooms, roomId, targetUserId).value.sid),
                                       Offer(offer, fromUserId, fromUsername))]
  {
    Deliver(rooms, roomId, targetUserId, "offer", Offer(offer, fromUserId, fromUsername))
  }

  /** `answer`: relays the SDP answer with the sender's id to the target. */
  function RelayAnswer(rooms: seq<Room>, roomId: RoomId, targetUserId: UserId,
                       answer: string, fromUserId: UserId): (out: seq<Emit>)
    ensures out != [] <==> HasRoom(rooms, roomId) && targetUserId in UserIds(Members(rooms, roomId))
    ensures out != [] ==> Lookup(rooms, roomId, targetUserId).Some? &&
                          out == [Emit("answer", ToSid(Lookup(rooms, roomId, targetUserId).value.sid),
                                       Answer(answer, fromUserId))]
  {
    Deliver(rooms, roomId, targetUserId, "answer", Answer(answer, fromUserId))
  }

  /** `ice-candidate`: relays the ICE candidate with the sender's id to the target. */
  function RelayIceCandidate(rooms: seq<Room>, roomId: RoomId, targetUserId: UserId,
                             candidate: string, fromUserId: UserId): (out: seq<Emit>)
    ensures out != [] <==> HasRoom(rooms, roomId) && targetUserId in UserIds(Members(rooms, roomId))
    ensures out != [] ==> Lookup(rooms, roomId, targetUserId).Some? &&
                          out == [Emit("ice-candidate", ToSid(Lookup(rooms, roomId, targetUserId).value.sid),
                                       IceCandidate(candidate, fromUserId))]
  {
    Deliver(rooms, roomId, targetUserId, "ice-candidate", IceCandidate(candidate, fromUserId))
  }

  /**
   * `get-room-info`: the room's user count and usernames in insertion order.
   * A missing (`None`) or empty room id is falsy in the source and reports an
   * empty room, as does an absent room.
   */
  function GetRoomInfo(rooms: seq<Room>, roomId: Option<RoomId>): (out: seq<Emit>)
    ensures |out| == 1 && out[0].event == "room-info" && out[0].to == Sender
    ensures out[0].payload.RoomInfo? && out[0].payload.roomId == roomId
    ensures out[0].payload.userCount == |out[0].payload.usernames|
    ensures roomId.Some? && roomId.value != "" ==> out[0].payload.usernames == Usernames(Members(rooms, roomId.value))
    ensures roomId.None? || roomId.value == "" ==> out[0].payload.usernames == []
  {
    if roomId.Some? && roomId.value != "" && HasRoom(rooms, roomId.value) then
      var users := Members(rooms, roomId.value);
      [Emit("room-info", Sender, RoomInfo(roomId, |users|, Usernames(users)))]
    else
      [Emit("room-info", Sender, RoomInfo(roomId, 0, []))]
  }


  // ---------------------------------------------------------------------------
  // A session end to end
  // ---------------------------------------------------------------------------

  lemma SessionFirstJoin()
    ensures Join([], "abc", "A", "Ann", "sa") ==
            Step([Room("abc", [Entry("A", "Ann", "sa")])],
                 [Emit("existing-users", Sender, ExistingUsers([])),
                  Emit("user-joined", ToRoomExcept("abc", "sa"), UserJoined("A", "Ann"))])
  {
    var a := Entry("A", "Ann", "sa");
    assert Members([], "abc") == [];
    assert Summaries([]) == [];
    assert UserIds([]) == [] && RoomIds([]) == [];
    assert PutUser([], a) == [a];
    assert PutRoom([], "abc", [a]) == [Room("abc", [a])];
  }

  lemma SessionSecondJoin()
    ensures Join([Room("abc", [Entry("A", "Ann", "sa")])], "abc", "B", "Bob", "sb") ==
            Step([Room("abc", [Entry("A", "Ann", "sa"), Entry("B", "Bob", "sb")])],
                 [Emit("existing-users", Sender, ExistingUsers([UserSummary("A", "Ann")])),
                  Emit("user-joined", ToRoomExcept("abc", "sb"), UserJoined("B", "Bob"))])
  {
    var a, b := Entry("A", "Ann", "sa"), Entry("B", "Bob", "sb");
    var rooms := [Room("abc", [a])];
    FindDistinct(RoomIds(rooms), 0);
    assert Members(rooms, "abc") == [a];
    assert Summaries([a]) == [UserSummary("A", "Ann")];
    assert UserIds([a]) == [] + ["A"];
    FindAppend([], "A", "B");
    assert PutUser([a], b) == [a, b];
    assert PutRoom(rooms, "abc", [a, b]) == [Room("abc", [a, b])];
  }

  lemma SessionDisconnects()
    ensures Disconnect([Room("abc", [Entry("A", "Ann", "sa"), Entry("B", "Bob", "sb")])], "sb") ==
            Step([Room("abc", [Entry("A", "Ann", "sa")])], [Emit("user-left", ToRoom("abc"), UserLeft("B", "Bob"))])
    ensures Disconnect([Room("abc", [Entry("A", "Ann", "sa")])], "sa") ==
            Step([], [Emit("user-left", ToRoom("abc"), UserLeft("A", "Ann"))])
  {
    var a, b := Entry("A", "Ann", "sa"), Entry("B", "Bob", "sb");
    FirstWithSidIs([Room("abc", [a, b])], "sb", Pos(0, 1));
    assert Without([a, b], 1) == [a];
    FirstWithSidIs([Room("abc", [a])], "sa", Pos(0, 0));
    assert Without([Room("abc", [a])], 0) == [];
  }

  lemma SessionOffer()
    ensures RelayOffer([Room("abc", [Entry("A", "Ann", "sa"), Entry("B", "Bob", "sb")])], "abc", "B", "sdp", "A", "Ann")
            == [Emit("offer", ToSid("sb"), Offer("sdp", "A", "Ann"))]
    ensures Members([Room("abc", [Entry("A", "Ann", "sa")])], "abc") == [Entry("A", "Ann", "sa")]
  {
    LookupAt([Room("abc", [Entry("A", "Ann", "sa"), Entry("B", "Bob", "sb")])], 0, 1);
    LookupAt([Room("abc", [Entry("A", "Ann", "sa")])], 0, 0);
  }

  /**
   * Two peers meet in room "abc": the first joiner is told of nobody, the
   * second is told of the first; an offer reaches the second peer's
   * connection unchanged; each disconnect tells the room, and the last one
   * deletes the room.
   */
  lemma TwoPeerSession()
    ensures var s1 := Join([], "abc", "A", "Ann", "sa");
            var s2 := Join(s1.rooms, "abc", "B", "Bob", "sb");
            var s3 := Disconnect(s2.rooms, "sb");
            var s4 := Disconnect(s3.rooms, "sa");
            && s1.out[0] == Emit("existing-users", Sender, ExistingUsers([]))
            && s2.out[0] == Emit("existing-users", Sender, ExistingUsers([UserSummary("A", "Ann")]))
            && RelayOffer(s2.rooms, "abc", "B", "sdp", "A", "Ann") == [Emit("offer", ToSid("sb"), Offer("sdp", "A", "Ann"))]
            && s3.out == [Emit("user-left", ToRoom("abc"), UserLeft("B", "Bob"))]
            && Members(s3.rooms, "abc") == [Entry("A", "Ann", "sa")]
            && s4.rooms == []
  {
    SessionFirstJoin();
    SessionSecondJoin();
    SessionDisconnects();
    SessionOffer();
  }
}
