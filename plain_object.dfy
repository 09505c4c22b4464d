/**
 * `userSocketMap` is a plain object literal, so it inherits the members of
 * `Object.prototype`. This module models the two places where that shows:
 * a lookup of an inherited name finds a value although no user holds it,
 * and storing under the key "__proto__" calls the prototype setter, which
 * ignores a string, instead of adding an entry. The rest of the model uses
 * the dictionary semantics evidently intended (`Presence.Resolve`,
 * `Presence.Registered`).
 */
module PlainObject {
  import opened Options
  import opened Presence

  /** The property names every plain object inherits from `Object.prototype`. */
  const PrototypeMembers: set<string> := {
    "constructor", "hasOwnProperty", "isPrototypeOf", "propertyIsEnumerable",
    "toLocaleString", "toString", "valueOf", "__proto__",
    "__defineGetter__", "__defineSetter__", "__lookupGetter__", "__lookupSetter__"
  }

  /** What a property read can give back here: nothing, a socket id stored
      as an own property, or an inherited function or object. */
  datatype JsValue = Undefined | Str(s: string) | InheritedMember(name: string)

  /** JavaScript truthiness, as in the relays' `if (receiverSocketId)`. */
  predicate Truthy(v: JsValue) {
    match v
    case Undefined => false
    case Str(s) => s != ""
    case InheritedMember(_) => true
  }

  /** `userSocketMap[userId]` as written: own property first, then the
      prototype chain. */
  function GetReceiverSocketIdAsWritten(m: Registry, userId: string): (r: JsValue)
    ensures userId in m ==> r == Str(m[userId])
    ensures userId !in m ==> (Truthy(r) <==> userId in PrototypeMembers)
  {
    if userId in m then Str(m[userId])
    else if userId in PrototypeMembers then InheritedMember(userId)
    else Undefined
  }

  /** `userSocketMap[userId] = socketId` as written: "__proto__" goes to the
      inherited setter, which ignores a string value. */
  function StoreAsWritten(m: Registry, userId: string, socketId: SocketId): (r: Registry)
    ensures userId == "__proto__" ==> r == m
    ensures userId != "__proto__" ==> r.Keys == m.Keys + {userId} && r[userId] == socketId
  {
    if userId == "__proto__" then m else m[userId := socketId]
  }

  /** With nobody online, a typing indicator addressed to "constructor"
      passes the relay's guard, while the intended lookup finds nothing. */
  lemma InheritedNameLooksOnline()
    ensures Truthy(GetReceiverSocketIdAsWritten(map[], "constructor"))
    ensures Resolve(map[], "constructor") == None
  {
  }

  /** A user whose id is "__proto__" passes the handshake check and triggers
      a broadcast, yet is never stored, so never listed as online; the
      intended registration stores it. */
  lemma ProtoUserNeverStored(m: Registry, socketId: SocketId)
    requires "__proto__" !in m
    ensures IsRegistrable(Some("__proto__"))
    ensures "__proto__" !in StoreAsWritten(m, "__proto__", socketId)
    ensures Resolve(Registered(m, socketId, Some("__proto__")), "__proto__") == Some(socketId)
  {
  }

  /** For every other key the source behaves as the intended dictionary:
      lookup agrees with `Resolve` and storing agrees with `Registered`. */
  lemma AsWrittenAgreesOffPrototype(m: Registry, userId: string, socketId: SocketId)
    requires userId !in PrototypeMembers
    ensures Truthy(GetReceiverSocketIdAsWritten(m, userId)) <==> Resolve(m, userId).Some?
    ensures Resolve(m, userId).Some? ==> GetReceiverSocketIdAsWritten(m, userId) == Str(Resolve(m, userId).value)
    ensures IsRegistrable(Some(userId)) ==> StoreAsWritten(m, userId, socketId) == Registered(m, socketId, Some(userId))
  {
  }
}
