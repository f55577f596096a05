# Room registry of a WebRTC signaling server, in Dafny

The server (`app.py`) relays WebRTC handshakes between browsers. Its only
state is the module-level dict `rooms`, shaped
`{room_id: {user_id: {'username', 'sid'}}}`. The Socket.IO handlers change or
read that dict and `emit` events:

- `join-room` creates the room if needed, rejects the joiner when the room
  already has 6 users, sends the joiner the users already present, stores the
  joiner and tells the rest of the room;
- `leave-room` removes one user and deletes the room once it is empty;
- `disconnect` scans rooms and then users in insertion order and removes the
  first entry registered under the closing connection's sid;
- `offer`, `answer` and `ice-candidate` forward their payload to the stored sid
  of a target user, but only when that user is registered in the named room;
- `get-room-info` reports a room's user count and usernames.

The model has five modules:

- `Wrappers` (`wrappers.dfy`) holds the `Option` type, used for a look-up
  that may miss and for the optional room id of `get-room-info`.
- `Rooms` (`rooms.dfy`) holds the data. A Python dict keeps insertion order,
  and both the existing-users listing and the disconnect scan depend on it.
  So each level of the dict is an ordered association list: a `seq<Room>`,
  each `Room` holding a `seq<Entry>`. Key look-up (`Find`, `Members`,
  `Lookup`) returns the first position holding the key. Assignment
  (`PutUser`, `PutRoom`) overwrites in place or appends. `WellFormed` says
  keys are unique, as in a dict. `Valid` adds the registry's invariant:
  every stored room is non-empty and holds at most `Capacity` (6) users.
- `Events` (`events.dfy`) is the outbox. Each `emit` is an `Emit` with the
  event name, a recipient and the payload fields. The recipient is the
  sender, the room, the room minus one sid, or one sid.
- `Signaling` (`signaling.dfy`) gives every handler as a function of the
  registry state, with lemmas stating what each handler promises. A handler
  that changes the registry returns a `Step`, the new state plus the outbox.
  The relays and the room-info query return only an outbox, so they cannot
  change the registry.
- `Server` (`server.dfy`) has the class `Registry`, whose field `rooms` is
  the dict. `Join`, `Leave` and `Disconnect` update it in place, step by step
  as the source does. `Join` creates the room before checking capacity.
  `Disconnect` uses nested loops with an early return. Each method keeps
  `Valid` and is proved to produce the state and outbox of its `Signaling`
  function.

Behaviour of the code that the model keeps as written:

- A user may join while already registered in another room. Nothing stops
  one sid from being registered twice. `disconnect` then removes only the
  first entry and leaves the other one registered, so disconnect is
  idempotent only when the sid holds at most one entry (`DisconnectTwice`,
  `DisconnectLeavesSecondEntry`).
- `leave-room` does not check that the calling connection owns `userId`.
  `Leave` takes no sid.
- The relays do not check that the sender is in the room. `fromUserId` and
  `fromUsername` are copied from the client's message as they are.
- A full room rejects every join, including a re-join by a user already in
  it.
- `get-room-info` treats a missing or empty room id as falsy. It reports 0
  users for the room id `""`, even when `join-room` has created a room
  under that id.

## Model

| member | source | states |
|---|---|---|
| `Rooms.Find` | app.py:85 | look-up of a key: the first position holding it, and the length exactly when the key is absent (`room_id not in rooms`) |
| `Rooms.Members` | app.py:97 | `rooms[room_id]` as a list of entries: when the room exists, that room with exactly these entries is stored; an absent room has no entries |
| `Rooms.Get` | app.py:128 | `room[user_id]`: found exactly when the user id is a key of the room, and then it is a stored entry with that user id |
| `Rooms.Lookup` | app.py:156-157 | `rooms[room_id][user_id]`: found exactly when the room exists and holds the user id (the source's `room_id in rooms and target_user_id in rooms[room_id]`), and then it is one of that room's entries with that user id |
| `Rooms.PutUser` | app.py:101-104 | `room[user_id] = {...}` stores the entry; the room grows by one exactly when the user id was absent |
| `Rooms.PutRoom` | app.py:85-86 | `rooms[room_id] = ...` stores the room with exactly these entries; the registry grows by one exactly when the room id was absent |
| `Rooms.PutUserGet` | app.py:101-104 | `room[user_id] = {...}` makes the look-up of that user return the new entry and leaves every other user's look-up unchanged; a present key keeps its position, a new key is appended; unique keys stay unique |
| `Rooms.PutRoomMembers` | app.py:85-86 | `rooms[room_id] = ...` sets that room's entries and leaves every other room's entries unchanged; a new room id is appended to the key order; unique keys stay unique |
| `Rooms.GetWithout` | app.py:129 | `del room[user_id]` leaves every other user's look-up unchanged and, with unique keys, makes the deleted user absent |
| `Rooms.MembersWithout` | app.py:142-143 | `del rooms[room_id]` leaves every other room's entries unchanged and, with unique keys, makes the room absent |
| `Signaling.Join` | app.py:69-118 | a join answers the sender first; it emits one event (`room-full`) exactly when the room already has at least 6 users and two otherwise; afterwards the room exists exactly when it existed before or the join was accepted |
| `Signaling.JoinCapacity` | app.py:84-92 | a join emits only `room-full` to the sender exactly when the room already has at least 6 users, and then leaves `rooms` unchanged; a join to an absent room is never rejected and lists no existing users |
| `Signaling.JoinStores` | app.py:100-104 | after an accepted join, `rooms[roomId][userId]` is `(username, sid)`; every other (room, user) look-up and every other room is unchanged; the user-id order grows by `userId` only when it was absent (a re-join overwrites in place); the room-id order grows only when the room was new |
| `Signaling.JoinExistingUsers` | app.py:94-116 | an accepted join emits `existing-users` to the sender, listing the room's entries before the insertion as (userId, username) in insertion order, then `user-joined` to the room skipping the sender's sid; the room ends with one more user than listed unless the joiner was already present |
| `Signaling.JoinPreservesValid` | app.py:84-104 | join keeps the invariant: unique keys, every room non-empty and with at most 6 users |
| `Signaling.RemoveAt` | app.py:128-144 | removing one entry emits exactly one event, to that entry's room; the number of rooms drops by one exactly when the room held only that entry |
| `Signaling.RemoveAtEffect` | app.py:128-144 | removing one entry emits `user-left` with its userId and username to its room; only that (room, user) look-up changes, and it becomes absent; the remaining users keep their order; the room survives iff it had more than one user; the invariant is kept |
| `Signaling.RemoveAtKeyOrder` | app.py:129-143 | removing one entry keeps the room-id order; when the room empties, its id is cut out of that order and the other ids keep theirs |
| `Signaling.Leave` | app.py:121-144 | leave emits at most one event, and emits one exactly when `rooms[roomId][userId]` exists |
| `Signaling.LeaveAbsent` | app.py:127 | leave for a room or user that is not registered changes nothing and emits nothing |
| `Signaling.LeavePresent` | app.py:127-144 | leave for a registered user removes exactly that entry, broadcasts `user-left` to the room, keeps the other users in order and deletes the room iff it became empty; every other room keeps its entries, and the room-id order is unchanged, or loses just this id when the room is deleted |
| `Signaling.LeavePreservesValid` | app.py:141-144 | leave keeps the invariant, so no empty room is left behind |
| `Signaling.FirstWithSid` | app.py:46-49 | the disconnect scan's hit: an entry registered under the sid with no such entry earlier in room order then user order; none exactly when no entry holds the sid |
| `Signaling.FirstWithSidIs` | app.py:46-49 | a matching position with no match before it is the scan's hit |
| `Signaling.Disconnect` | app.py:39-66 | disconnect emits at most one event, and emits one exactly when some entry is registered under the sid |
| `Signaling.DisconnectWithoutMatch` | app.py:46-66 | when no entry holds the sid, disconnect changes nothing and emits nothing |
| `Signaling.DisconnectIsLeave` | app.py:46-66 | disconnect acts exactly as leave for the room and user id of the first entry under the sid, so it removes one entry, broadcasts `user-left` for it and deletes the room if it emptied |
| `Signaling.DisconnectPreservesValid` | app.py:61-64 | disconnect keeps the invariant |
| `Signaling.DisconnectTwice` | app.py:46-66 | when at most one entry holds the sid, no entry holds it after the disconnect, and a second disconnect changes nothing and emits nothing |
| `Signaling.DisconnectLeavesSecondEntry` | app.py:46-66 | a sid registered in two rooms is still registered after one disconnect, and a second disconnect removes its other entry |
| `Signaling.Deliver` | app.py:156-157 | one message to the stored sid of `rooms[roomId][targetUserId]` iff the room exists and holds the target; no message otherwise |
| `Signaling.RelayOffer` | app.py:147-163 | `offer` is relayed once, with the SDP, `fromUserId` and `fromUsername` copied, to the target's sid iff the target is registered in the room; otherwise nothing is emitted |
| `Signaling.RelayAnswer` | app.py:166-181 | `answer` is relayed once, with the SDP and `fromUserId` copied, to the target's sid iff the target is registered in the room; otherwise nothing is emitted |
| `Signaling.RelayIceCandidate` | app.py:184-199 | `ice-candidate` is relayed once, with the candidate and `fromUserId` copied, to the target's sid iff the target is registered in the room; otherwise nothing is emitted |
| `Signaling.GetRoomInfo` | app.py:202-218 | one `room-info` to the sender echoing the room id; the user count equals the number of usernames listed; a non-empty room id lists the room's usernames in insertion order (none for an absent room); a missing or empty room id lists none |
| `Signaling.TwoPeerSession` | app.py:39-163 | A joins "abc" and hears of nobody; B joins and hears of A; A's offer reaches B's sid unchanged; B's disconnect tells the room and leaves only A; A's disconnect deletes the room |
| `Server.Registry.constructor` | app.py:24 | the registry starts as the empty dict |
| `Server.Registry.Join` | app.py:69-118 | the in-place join, which creates the room before the capacity check, keeps the invariant and yields the state and outbox of `Signaling.Join` |
| `Server.Registry.Leave` | app.py:121-144 | the in-place leave keeps the invariant and yields the state and outbox of `Signaling.Leave` |
| `Server.Registry.Disconnect` | app.py:39-66 | the nested scan with early return keeps the invariant and yields the state and outbox of `Signaling.Disconnect` |

`Signaling.Summaries` and `Signaling.Usernames` are the list comprehensions
at app.py:95-98 and app.py:211. They have no contract of their own. What they
list is stated by `Signaling.JoinExistingUsers` and `Signaling.GetRoomInfo`.
The scenario helpers `SessionFirstJoin`, `SessionSecondJoin`,
`SessionDisconnects` and `SessionOffer` are steps of
`Signaling.TwoPeerSession`.

## Left out

- The HTTP route and template rendering (app.py:27-30) and process startup
  (app.py:221-229) are out of scope: they are web plumbing and I/O.
- `handle_connect` (app.py:33-36) only logs, so it has no model.
- Logging calls have no behaviour and are left out.
- Socket.IO delivery and its own room membership (`join_room` and
  `leave_room`, app.py:107 and app.py:131) belong to the library. An `emit`
  is modelled only as an outbox entry with a recipient descriptor.
- gevent scheduling and concurrency (app.py:20) are left out. The model runs
  one handler call at a time.
- The connection's sid (`request.sid`) is a method parameter.
- Missing message fields raise `KeyError` in the source. In the model the
  fields are parameters, so a malformed message cannot be expressed.
  `get-room-info` uses `data.get`, so its room id is an `Option`.
- Usernames, ids, SDP and ICE payloads are opaque strings. Other JSON value
  types are not modelled.
- A dict key look-up is modelled as a linear search over an association
  list. Hashing and its cost are not modelled.
