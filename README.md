# Online-user registry and event relay of a Socket.IO chat server

This project models the socket layer of a chat server, found in
`server/src/lib/socket.js`. The server keeps one mutable dictionary,
`userSocketMap`, from user id to socket id. It works on that dictionary in four places:

- **Connection handler.** A connection whose handshake `userId` is present, non-empty and not the
  literal `"undefined"` stores `userId -> socket.id`. This overwrites any older socket of the same
  user. The handler then broadcasts `getOnlineUsers` with `Object.keys` of the map. Any other
  connection stays anonymous, changes nothing and broadcasts nothing.
- **Disconnect handler.** It scans the entries, deletes the first entry that holds the closing
  socket and stops (`break`). It then broadcasts `getOnlineUsers` again, whether or not anything
  was deleted.
- **`getReceiverSocketId`.** It looks a user up in the map.
- **Relays.** `typing:start`, `typing:stop` and `message:read` each resolve one user and emit at
  most one event, to that user's socket. None of them changes the map.

Modules:

- `Options` (options.dfy) holds the `Option` type.
- `Presence` (presence.dfy) holds these parts:
  - the map type and its specification functions `Resolve`, `Registered` and `Unregistered`;
  - `ObjectKeys`, a method for the broadcast listing;
  - the class `SocketServer`, whose field `userSocketMap` is updated in place by the methods
    `Connect` and `Disconnect`;
  - the lemmas about registration and removal;
  - a two-user scenario run against the class.
- `Relay` (relay.dfy) holds the three relay handlers, as pure functions from the map, the
  connection's handshake user id and the event payload to an optional delivery.
- `History` (history.dfy) replays whole runs of connections and disconnections. It proves that
  the resulting map holds exactly the users whose most recent registration's socket has not
  closed since, each one bound to that socket.
- `PlainObject` (plain_object.dfy) models two places where the map, as a plain JavaScript
  object, behaves unlike a dictionary (see "## Findings").

Modelling choices:

- Each Socket.IO handler runs to completion on Node's single thread, so each handler is one
  atomic step.
- Socket ids are generated by Socket.IO and are never empty. `SocketId` is the type of
  non-empty strings, so the relays' truthiness test `if (receiverSocketId)` is the same as "the
  user is a key of the map".
- A payload field that the client leaves out is `None`. Using it as a property key reads the
  key `"undefined"`, which the connection handler never stores.
- A broadcast is returned as the listing of user ids that `io.emit` would send. `Lists` says that
  this listing holds every key exactly once. Order is not modelled.

The design text for this subsystem disagrees with the code in two places. This model follows the
code in both:

- The design says a close triggers removal and a presence broadcast only for a registered
  connection. The code scans and broadcasts on every disconnect, anonymous or not, and also when
  no entry matches.
- The design describes a no-op removal. The code still broadcasts after a removal that matched
  nothing.

## Model

| member | source | states |
|---|---|---|
| `Presence.Resolve` | server/src/lib/socket.js:14-16 | a lookup yields a socket exactly when the user is a key, and then it is that user's stored socket; otherwise nothing |
| `Presence.Registered` | server/src/lib/socket.js:24-26 | a registrable handshake id adds or overwrites that one key with the new socket and keeps every other entry; any other handshake leaves the map as it was |
| `Presence.Unregistered` | server/src/lib/socket.js:75-81 | removal on unshared sockets keeps exactly the users not holding the closed socket, with their sockets unchanged; no entry holds the closed socket afterwards |
| `Presence.ObjectKeys` | server/src/lib/socket.js:30 | the broadcast list contains every online user and nothing else, without duplicates |
| `Presence.ListingLength` | server/src/lib/socket.js:84 | a broadcast list has exactly one element per map entry |
| `Presence.SocketServer.constructor` | server/src/lib/socket.js:19 | the registry starts empty |
| `Presence.SocketServer.Connect` | server/src/lib/socket.js:21-32 | the new map is `Registered` of the old one; a broadcast happens if and only if the handshake id is registrable, and it lists the new map's keys once each; unshared sockets stay unshared when the socket is fresh |
| `Presence.SocketServer.Disconnect` | server/src/lib/socket.js:71-86 | an unknown socket leaves the map unchanged; otherwise exactly one entry holding it is deleted and nothing else changes; on unshared sockets the result is `Unregistered` and stays unshared; the broadcast always lists the new keys once each |
| `Presence.ResolveAfterConnect` | server/src/lib/socket.js:25-26 | after a registration the user resolves to the new socket and every other user resolves as before |
| `Presence.ResolveAfterDisconnect` | server/src/lib/socket.js:75-81 | after a close no user resolves to the closed socket, and users holding other sockets resolve as before |
| `Presence.ReconnectOverwrites` | server/src/lib/socket.js:26 | two registrations of one user leave one entry for that user, bound to the second socket, the same as registering only the second |
| `Presence.UnknownDisconnectIsNoOp` | server/src/lib/socket.js:75-81 | closing a socket no entry holds leaves the map unchanged |
| `Presence.StaleDisconnectKeepsUserOnline` | server/src/lib/socket.js:71-86 | when a user has reconnected from a newer socket, closing the older socket leaves the user online on the newer one |
| `Presence.StepsPreserveInvariants` | server/src/lib/socket.js:25-26 | registration never stores the empty id or "undefined"; it keeps sockets unshared when the socket is fresh; removal keeps both properties |
| `Presence.TwoUsersOneLeaves` | server/src/lib/socket.js:21-86 | when A and B connect, the broadcasts list {A} and then {A, B} (two entries); when A's socket closes, the broadcast is exactly [B] |
| `Relay.PropertyKey` | server/src/lib/socket.js:36 | a present field is its own key; a missing field becomes a key no connection can register |
| `Relay.OnTypingStart` | server/src/lib/socket.js:35-45 | one delivery if and only if the receiver is online, addressed to the receiver's socket and carrying the sender's handshake id and the given sender name; otherwise none |
| `Relay.OnTypingStop` | server/src/lib/socket.js:47-56 | one delivery if and only if the receiver is online, addressed to the receiver's socket and carrying only the sender's handshake id; otherwise none |
| `Relay.OnMessageRead` | server/src/lib/socket.js:59-69 | one delivery if and only if the original sender is online, addressed to that sender's socket and carrying the message id and the reader's handshake id as `readBy`; otherwise none |
| `Relay.RelaysReachOnlyTheAddressee` | server/src/lib/socket.js:35-69 | on unshared sockets, each relay's delivery reaches the addressed user and no other online user |
| `Relay.MissingAddresseeIsDropped` | server/src/lib/socket.js:36-39 | an event without a receiver id (or, for a read receipt, without a sender id) is never delivered |
| `Relay.TypingFollowsPresence` | server/src/lib/socket.js:35-45 | a typing indicator goes to the socket the receiver just connected with, and is dropped once that socket has closed |
| `History.LastRegistration` | server/src/lib/socket.js:25-26 | returns the index of a registration of the user with no later registration of that user, or nothing when the run has none |
| `History.ReplayIsOnlineUsers` | server/src/lib/socket.js:21-86 | with fresh socket ids, after any run of connections and disconnections, a user is online exactly when the socket of its most recent registration has not closed since, and is bound to that socket; sockets stay unshared |
| `PlainObject.GetReceiverSocketIdAsWritten` | server/src/lib/socket.js:14-16 | as written, an own key yields its socket, and a missing key yields a truthy value exactly when it names an `Object.prototype` member |
| `PlainObject.StoreAsWritten` | server/src/lib/socket.js:26 | as written, storing under "__proto__" leaves the map unchanged, and any other id is added with its socket |
| `PlainObject.InheritedNameLooksOnline` | server/src/lib/socket.js:37-39 | with nobody online, the lookup of "constructor" passes the relay guard, while the intended lookup finds nothing |
| `PlainObject.ProtoUserNeverStored` | server/src/lib/socket.js:25-30 | the id "__proto__" passes the handshake check, but the written assignment does not store it; the intended registration does |
| `PlainObject.AsWrittenAgreesOffPrototype` | server/src/lib/socket.js:14-26 | for every id that is not an `Object.prototype` member, the written lookup and store agree with `Resolve` and `Registered` |

## Findings

| source | as written | input that shows it | evidently intended | confidence | as-written member | corrected member |
|---|---|---|---|---|---|---|
| server/src/lib/socket.js:14-16 | `userSocketMap` is an object literal, so the lookup falls through to members inherited from `Object.prototype` | a `typing:start` with `receiverId: "constructor"` while nobody is online: the lookup returns a function, the `if (receiverSocketId)` guard passes, and an emit is addressed to something that is not a socket id | only registered users resolve | not executed; follows from ECMAScript property lookup on a plain object | `PlainObject.InheritedNameLooksOnline` | `Presence.Resolve` |
| server/src/lib/socket.js:26 | assigning under the key "__proto__" calls the inherited setter, which ignores a string | a handshake with `userId=__proto__`: it passes the guard and a broadcast goes out, but nothing is stored, so that user never appears online and cannot be reached | the id is stored like any other | not executed; follows from the `Object.prototype.__proto__` setter | `PlainObject.ProtoUserNeverStored` | `Presence.Registered` |

## Left out

- Server construction is not modelled: the Express app, the HTTP server, the Socket.IO server with
  its CORS origins, and the exports (server/src/lib/socket.js:1-12, 89). This is framework
  plumbing.
- `io.emit` and `io.to(...).emit` are not modelled as network writes. A broadcast is the returned
  list, and a relay is the returned `Delivery`. Who receives a broadcast (every connected client,
  anonymous ones included) is not modelled.
- `console.log` calls are left out. They are logging only.
- The order of `Object.keys` and `Object.entries` is not modelled. JavaScript lists integer-like
  keys first and then the rest in insertion order. `ObjectKeys` and the scan in `Disconnect` visit
  the keys in an arbitrary order.
- Presence.SocketServer.Disconnect: when several entries hold the closing socket, the model deletes
  one of them chosen arbitrarily. The source deletes the first one in `Object.entries` order. The
  two agree whenever sockets are unshared, which fresh socket ids guarantee (`History.ReplayIsOnlineUsers`).
- Concurrency is not modelled. Each handler is one atomic step, as Node runs it.
- A handshake `userId` that is not a string (a repeated query parameter gives an array) and event
  fields that are not strings are not modelled. Both are optional strings.
- A relay called without any payload object is not modelled. The source's destructuring throws in
  that case.
- The new-message push to a recipient (the "delivery notifier") is not part of this model. It
  calls `getReceiverSocketId` from `message.controller.js`, which is not part of this model.
  `Presence.Resolve` models the lookup it relies on.
- server/src/controllers/auth.controller.js is not modelled. It is request and response handling
  around a database, password hashing, token cookies and image upload, none of which is visible.
- server/src/routes/message.route.js is not modelled. It is only an Express routing table.
