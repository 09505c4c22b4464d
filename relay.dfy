/**
 * The three point-to-point relays a connection registers: `typing:start`,
 * `typing:stop` and `message:read`. Each reads the registry, resolves one
 * target user and yields at most one delivery; none changes the registry.
 */
module Relay {
  import opened Options
  import opened Presence

  /** Payload of an inbound `typing:start` or `typing:stop`; a field the
      client left out is None. */
  datatype TypingData = TypingData(receiverId: Option<string>, senderName: Option<string>)

  /** Payload of an inbound `message:read`: the original message's sender. */
  datatype ReadData = ReadData(senderId: Option<string>, messageId: Option<string>)

  /** Outbound point-to-point events. `senderId` and `readBy` are the user id
      the emitting connection carried at handshake, absent or not. */
  datatype OutEvent =
    | TypingStarted(senderId: Option<string>, senderName: Option<string>)
    | TypingStopped(senderId: Option<string>)
    | MessageRead(messageId: Option<string>, readBy: Option<string>)

  /** `io.to(target).emit(event)`. */
  datatype Delivery = Delivery(target: SocketId, event: OutEvent)

  /** A missing field used as a property key becomes the key "undefined". */
  function PropertyKey(field: Option<string>): (k: UserId)
    ensures field.Some? ==> k == field.value
    ensures field.None? ==> !IsRegistrable(Some(k))
  {
    if field.Some? then field.value else "undefined"
  }

  /** `typing:start` from a connection whose handshake carried `userId`. */
  function OnTypingStart(m: Registry, userId: Option<string>, data: TypingData): (d: Option<Delivery>)
    ensures d.Some? <==> PropertyKey(data.receiverId) in m
    ensures d.Some? ==> d.value.target == m[PropertyKey(data.receiverId)]
    ensures d.Some? ==> d.value.event == TypingStarted(userId, data.senderName)
  {
    match Resolve(m, PropertyKey(data.receiverId))
    case Some(target) => Some(Delivery(target, TypingStarted(userId, data.senderName)))
    case None => None
  }

  /** `typing:stop`: as `typing:start`, carrying the sender id only. */
  function OnTypingStop(m: Registry, userId: Option<string>, data: TypingData): (d: Option<Delivery>)
    ensures d.Some? <==> PropertyKey(data.receiverId) in m
    ensures d.Some? ==> d.value.target == m[PropertyKey(data.receiverId)]
    ensures d.Some? ==> d.value.event == TypingStopped(userId)
  {
    match Resolve(m, PropertyKey(data.receiverId))
    case Some(target) => Some(Delivery(target, TypingStopped(userId)))
    case None => None
  }

  /** `message:read`: the receipt goes back to the original sender. */
  function OnMessageRead(m: Registry, userId: Option<string>, data: ReadData): (d: Option<Delivery>)
    ensures d.Some? <==> PropertyKey(data.senderId) in m
    ensures d.Some? ==> d.value.target == m[PropertyKey(data.senderId)]
    ensures d.Some? ==> d.value.event == MessageRead(data.messageId, userId)
  {
    match Resolve(m, PropertyKey(data.senderId))
    case Some(target) => Some(Delivery(target, MessageRead(data.messageId, userId)))
    case None => None
  }

  /** The user a delivery reaches: the one registered for its target socket. */
  ghost predicate Reaches(m: Registry, d: Delivery, u: UserId) {
    u in m && m[u] == d.target
  }

  /** With unshared sockets a relay reaches its addressee and no other
      online user. */
  lemma RelaysReachOnlyTheAddressee(m: Registry, userId: Option<string>, typing: TypingData, read: ReadData, u: UserId)
    requires Injective(m)
    ensures OnTypingStart(m, userId, typing).Some? ==>
      (Reaches(m, OnTypingStart(m, userId, typing).value, u) <==> u == PropertyKey(typing.receiverId))
    ensures OnTypingStop(m, userId, typing).Some? ==>
      (Reaches(m, OnTypingStop(m, userId, typing).value, u) <==> u == PropertyKey(typing.receiverId))
    ensures OnMessageRead(m, userId, read).Some? ==>
      (Reaches(m, OnMessageRead(m, userId, read).value, u) <==> u == PropertyKey(read.senderId))
  {
  }

  /** An event with no addressee field is dropped: the key "undefined" is
      never registered. */
  lemma MissingAddresseeIsDropped(m: Registry, userId: Option<string>, typing: TypingData, read: ReadData)
    requires WellKeyed(m)
    ensures typing.receiverId.None? ==> OnTypingStart(m, userId, typing).None? && OnTypingStop(m, userId, typing).None?
    ensures read.senderId.None? ==> OnMessageRead(m, userId, read).None?
  {
  }

  /** A typing indicator sent right after the receiver connects goes to the
      receiver's new socket; one sent after that socket closes is dropped. */
  lemma TypingFollowsPresence(m: Registry, socketId: SocketId, receiver: string, userId: Option<string>, name: Option<string>)
    requires IsRegistrable(Some(receiver))
    ensures var connected := Registered(m, socketId, Some(receiver));
      OnTypingStart(connected, userId, TypingData(Some(receiver), name))
        == Some(Delivery(socketId, TypingStarted(userId, name)))
    ensures var closed := Unregistered(Registered(m, socketId, Some(receiver)), socketId);
      OnTypingStart(closed, userId, TypingData(Some(receiver), name)).None?
  {
  }
}
