/**
 * The online-user registry of the chat server's socket layer: a mutable
 * map from user id to the id of that user's most recent socket, filled on
 * connection, emptied on disconnect, and broadcast to every client after
 * each change.
 */
module Presence {
  import opened Options

  type UserId = string

  /** Socket.IO generates every connection id; it is never the empty string. */
  type SocketId = s: string | s != "" witness "0"

  type Registry = map<UserId, SocketId>

  /** The handshake's `userId` query value registers the connection only when
      it is present, non-empty and not the literal "undefined". */
  predicate IsRegistrable(q: Option<string>) {
    q.Some? && q.value != "" && q.value != "undefined"
  }

  /** No key is one that a connection could never have registered. */
  ghost predicate WellKeyed(m: Registry) {
    "" !in m && "undefined" !in m
  }

  /** Distinct users hold distinct sockets. */
  ghost predicate Injective(m: Registry) {
    forall u, v :: u in m && v in m && u != v ==> m[u] != m[v]
  }

  /** `ids` is a listing of the online users: exactly the keys, each once. */
  ghost predicate Lists(ids: seq<UserId>, m: Registry) {
    && (forall i, j :: 0 <= i < j < |ids| ==> ids[i] != ids[j])
    && (forall u :: u in ids <==> u in m)
  }

  /** `getReceiverSocketId`: the socket registered for a user, if any. */
  function Resolve(m: Registry, userId: UserId): (r: Option<SocketId>)
    ensures r.Some? <==> userId in m
    ensures r.Some? ==> r.value == m[userId]
  {
    if userId in m then Some(m[userId]) else None
  }

  /** The map after a connection `socketId` whose handshake carried `q`. */
  function Registered(m: Registry, socketId: SocketId, q: Option<string>): (r: Registry)
    ensures IsRegistrable(q) ==> r.Keys == m.Keys + {q.value} && r[q.value] == socketId
    ensures IsRegistrable(q) ==> forall u :: u in m && u != q.value ==> r[u] == m[u]
    ensures !IsRegistrable(q) ==> r == m
  {
    if IsRegistrable(q) then m[q.value := socketId] else m
  }

  /** The map after socket `socketId` closes, when sockets are not shared:
      every entry holding that socket goes, every other entry stays. */
  function Unregistered(m: Registry, socketId: SocketId): (r: Registry)
    ensures forall u :: u in r <==> u in m && m[u] != socketId
    ensures forall u :: u in r ==> r[u] == m[u]
    ensures socketId !in r.Values
  {
    map u | u in m && m[u] != socketId :: m[u]
  }

  /** A registered user resolves to the connecting socket; every other
      user resolves as before. */
  lemma ResolveAfterConnect(m: Registry, socketId: SocketId, q: Option<string>, other: UserId)
    requires IsRegistrable(q) && other != q.value
    ensures Resolve(Registered(m, socketId, q), q.value) == Some(socketId)
    ensures Resolve(Registered(m, socketId, q), other) == Resolve(m, other)
  {
  }

  /** Once its socket has closed, no user resolves to that socket. */
  lemma ResolveAfterDisconnect(m: Registry, socketId: SocketId, u: UserId)
    ensures Resolve(Unregistered(m, socketId), u) != Some(socketId)
    ensures u in m && m[u] != socketId ==> Resolve(Unregistered(m, socketId), u) == Resolve(m, u)
  {
  }

  /** A second connection for the same user leaves one entry for that user,
      bound to the newer socket. */
  lemma ReconnectOverwrites(m: Registry, first: SocketId, second: SocketId, u: UserId)
    requires IsRegistrable(Some(u))
    ensures var r := Registered(Registered(m, first, Some(u)), second, Some(u));
      r.Keys == m.Keys + {u} && r[u] == second && r == Registered(m, second, Some(u))
  {
  }

  /** Closing a socket that holds no entry changes nothing. */
  lemma UnknownDisconnectIsNoOp(m: Registry, socketId: SocketId)
    requires socketId !in m.Values
    ensures Unregistered(m, socketId) == m
  {
  }

  /** After a user reconnects from a newer socket, the close of the older
      socket does not take the user offline. */
  lemma StaleDisconnectKeepsUserOnline(m: Registry, older: SocketId, newer: SocketId, u: UserId)
    requires IsRegistrable(Some(u)) && older != newer
    ensures var r := Unregistered(Registered(Registered(m, older, Some(u)), newer, Some(u)), older);
      u in r && r[u] == newer
  {
  }

  /** Registration keeps the keys well formed and, for a fresh socket, keeps
      sockets unshared; removal keeps both. */
  lemma StepsPreserveInvariants(m: Registry, socketId: SocketId, q: Option<string>)
    requires WellKeyed(m) && Injective(m)
    ensures WellKeyed(Registered(m, socketId, q)) && WellKeyed(Unregistered(m, socketId))
    ensures socketId !in m.Values ==> Injective(Registered(m, socketId, q))
    ensures Injective(Unregistered(m, socketId))
  {
  }

  /** `Object.keys` of the map: every online user once, in no promised order. */
  method ObjectKeys(m: Registry) returns (ids: seq<UserId>)
    ensures Lists(ids, m)
  {
    ids := [];
    var rest := m.Keys;
    while rest != {}
      invariant rest <= m.Keys
      invariant forall i, j :: 0 <= i < j < |ids| ==> ids[i] != ids[j]
      invariant forall u :: u in ids <==> u in m && u !in rest
      decreases rest
    {
      var u :| u in rest;
      ids := ids + [u];
      rest := rest - {u};
    }
  }

  /** The module-level `userSocketMap` and the two handlers that change it. */
  class SocketServer {
    var userSocketMap: Registry

    ghost predicate Valid()
      reads this
    {
      WellKeyed(userSocketMap)
    }

    constructor ()
      ensures Valid() && userSocketMap == map[]
    {
      userSocketMap := map[];
    }

    /** The "connection" handler's registration block. Returns the
        `getOnlineUsers` broadcast, or None when nothing is broadcast. */
    method Connect(socketId: SocketId, userId: Option<string>) returns (online: Option<seq<UserId>>)
      requires Valid()
      modifies this
      ensures Valid()
      ensures userSocketMap == Registered(old(userSocketMap), socketId, userId)
      ensures online.Some? <==> IsRegistrable(userId)
      ensures online.Some? ==> Lists(online.value, userSocketMap)
      ensures Injective(old(userSocketMap)) && socketId !in old(userSocketMap).Values ==> Injective(userSocketMap)
    {
      if userId.Some? && userId.value != "" && userId.value != "undefined" {
        userSocketMap := userSocketMap[userId.value := socketId];
        var ids := ObjectKeys(userSocketMap);
        online := Some(ids);
      } else {
        online := None;
      }
    }

    /** The "disconnect" handler: scan the entries, delete the first one
        holding this socket and stop, then broadcast the online users. */
    method Disconnect(socketId: SocketId) returns (online: seq<UserId>)
      requires Valid()
      modifies this
      ensures Valid()
      ensures socketId !in old(userSocketMap).Values ==> userSocketMap == old(userSocketMap)
      ensures socketId in old(userSocketMap).Values ==>
        exists u :: u in old(userSocketMap) && old(userSocketMap)[u] == socketId && userSocketMap == old(userSocketMap) - {u}
      ensures Injective(old(userSocketMap)) ==> userSocketMap == Unregistered(old(userSocketMap), socketId)
      ensures Injective(old(userSocketMap)) ==> Injective(userSocketMap)
      ensures Lists(online, userSocketMap)
    {
      ghost var removed: Option<UserId> := None;
      var entries := userSocketMap.Keys;
      while entries != {}
        invariant entries <= userSocketMap.Keys
        invariant userSocketMap == old(userSocketMap) && removed == None
        invariant forall u :: u in userSocketMap && u !in entries ==> userSocketMap[u] != socketId
        decreases entries
      {
        var id :| id in entries;
        if userSocketMap[id] == socketId {
          userSocketMap := userSocketMap - {id};
          removed := Some(id);
          break;
        }
        entries := entries - {id};
      }
      ghost var before := old(userSocketMap);
      if removed.Some? {
        var id := removed.value;
        assert id in before && before[id] == socketId && userSocketMap == before - {id};
        if Injective(before) {
          assert forall u :: u in before && u != id ==> before[u] != socketId;
          assert userSocketMap == Unregistered(before, socketId);
        }
      } else {
        assert userSocketMap == before;
        assert socketId !in before.Values;
        assert userSocketMap == Unregistered(before, socketId);
      }
      online := ObjectKeys(userSocketMap);
    }
  }

  /** Users "A" and "B" connect, then A's socket closes: both broadcasts
      after the connects list both users (after B's), and the broadcast
      after the close lists only B. */
  method TwoUsersOneLeaves() returns (afterA: Option<seq<UserId>>, afterB: Option<seq<UserId>>, afterClose: seq<UserId>)
    ensures afterA.Some? && afterB.Some?
    ensures forall u :: u in afterA.value <==> u == "A"
    ensures forall u :: u in afterB.value <==> u == "A" || u == "B"
    ensures |afterB.value| == 2
    ensures afterClose == ["B"]
  {
    var server := new SocketServer();
    afterA := server.Connect("socket-a", Some("A"));
    afterB := server.Connect("socket-b", Some("B"));
    assert server.userSocketMap == map["A" := "socket-a", "B" := "socket-b"];
    ListingLength(afterB.value, server.userSocketMap);
    afterClose := server.Disconnect("socket-a");
    assert server.userSocketMap == map["B" := "socket-b"];
    ListingLength(afterClose, server.userSocketMap);
    assert afterClose[0] in afterClose;
  }

  /** A listing has exactly one element per online user. */
  lemma {:induction false} ListingLength(ids: seq<UserId>, m: Registry)
    requires Lists(ids, m)
    ensures |ids| == |m|
    decreases |ids|
  {
    if ids != [] {
      var n := |ids| - 1;
      var rest := m - {ids[n]};
      assert ids[n] in m;
      forall u ensures u in ids[..n] <==> u in rest {
        if u in ids[..n] {
          var k :| 0 <= k < n && ids[..n][k] == u;
          assert ids[k] == u && k < n;
        }
        if u in rest {
          assert u in ids;
          var k :| 0 <= k < |ids| && ids[k] == u;
          assert k != n;
          assert ids[..n][k] == u;
        }
      }
      ListingLength(ids[..n], rest);
      assert m.Keys == rest.Keys + {ids[n]};
    }
  }
}
