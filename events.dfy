/**
 * The outbox: every Socket.IO `emit` a handler performs, in order, with its
 * event name, its recipient and its payload fields. The transport itself
 * (delivery, Socket.IO's own room membership) is not part of this model.
 */
module Events {
  import opened Wrappers
  import opened Rooms

  /** Who an `emit` addresses. */
  datatype Recipient =
    | Sender                                      // no `room=`: the connection that sent the event
    | ToRoom(roomId: RoomId)                      // `room=room_id`
    | ToRoomExcept(roomId: RoomId, skipSid: Sid)  // `room=room_id, skip_sid=sid`
    | ToSid(sid: Sid)                             // `room=target_sid`: one connection

  /** `{'userId': .., 'username': ..}` as listed to a joiner. */
  datatype UserSummary = UserSummary(userId: UserId, username: string)

  /** Payload fields of each event. SDP and ICE candidates are opaque strings. */
  datatype Payload =
    | RoomFull(message: string)
    | ExistingUsers(users: seq<UserSummary>)
    | UserJoined(userId: UserId, username: string)
    | UserLeft(userId: UserId, username: string)
    | Offer(offer: string, fromUserId: UserId, fromUsername: string)
    | Answer(answer: string, fromUserId: UserId)
    | IceCandidate(candidate: string, fromUserId: UserId)
    | RoomInfo(roomId: Option<RoomId>, userCount: nat, usernames: seq<string>)  // key `users` in the source

  datatype Emit = Emit(event: string, to: Recipient, payload: Payload)

}
