/**
 * Whole runs of the registry: a sequence of connections and disconnections,
 * each handled to completion before the next. Replaying a run through the
 * two handlers gives exactly the users whose most recent registration's
 * socket has not closed since.
 */
module History {
  import opened Options
  import opened Presence

  datatype Event =
    | Connected(socketId: SocketId, userId: Option<string>)
    | Disconnected(socketId: SocketId)

  /** The event is a connection that registers user `u`. */
  predicate Registers(e: Event, u: UserId) {
    e.Connected? && IsRegistrable(e.userId) && e.userId.value == u
  }

  /** Every connection gets a socket id no other connection had. */
  ghost predicate FreshSockets(h: seq<Event>) {
    forall i, j :: 0 <= i < j < |h| && h[i].Connected? && h[j].Connected? ==> h[i].socketId != h[j].socketId
  }

  /** One handler run on the map; on unshared sockets the disconnect
      handler's first-match removal is `Unregistered`. */
  function Step(m: Registry, e: Event): Registry {
    match e
    case Connected(s, q) => Registered(m, s, q)
    case Disconnected(s) => Unregistered(m, s)
  }

  /** The map after the run `h`, starting from the empty map. */
  function Replay(h: seq<Event>): Registry
    decreases |h|
  {
    if h == [] then map[] else Step(Replay(h[..|h| - 1]), h[|h| - 1])
  }

  /** The index of `u`'s most recent registration in `h`, if any. */
  function LastRegistration(h: seq<Event>, u: UserId): (r: Option<nat>)
    ensures r.Some? ==> r.value < |h| && Registers(h[r.value], u)
    ensures r.Some? ==> forall j :: r.value < j < |h| ==> !Registers(h[j], u)
    ensures r.None? ==> forall j :: 0 <= j < |h| ==> !Registers(h[j], u)
    decreases |h|
  {
    if h == [] then None
    else if Registers(h[|h| - 1], u) then Some(|h| - 1)
    else LastRegistration(h[..|h| - 1], u)
  }

  /** Reference definition of "online after `h`": `u` registered at some
      point, and the socket of its most recent registration has not closed
      since. */
  ghost predicate OnlineAfter(h: seq<Event>, u: UserId) {
    match LastRegistration(h, u)
    case None => false
    case Some(i) => Disconnected(h[i].socketId) !in h[i + 1..]
  }

  /** `m` is the registry the run `h` should leave: unshared sockets, the
      users `OnlineAfter` names, each bound to the socket of its most
      recent registration. */
  ghost predicate Describes(h: seq<Event>, m: Registry) {
    && WellKeyed(m) && Injective(m)
    && (forall u :: u in m <==> OnlineAfter(h, u))
    && (forall u :: u in m ==> LastRegistration(h, u).Some? && m[u] == h[LastRegistration(h, u).value].socketId)
  }

  /** How one more event changes `u`'s most recent registration and
      whether `u` is online. */
  lemma OnlineAfterSnoc(p: seq<Event>, e: Event, u: UserId)
    ensures Registers(e, u) ==> LastRegistration(p + [e], u) == Some(|p|) && OnlineAfter(p + [e], u)
    ensures !Registers(e, u) ==> LastRegistration(p + [e], u) == LastRegistration(p, u)
    ensures !Registers(e, u) && LastRegistration(p, u).Some? ==>
      (OnlineAfter(p + [e], u) <==> OnlineAfter(p, u) && e != Disconnected(p[LastRegistration(p, u).value].socketId))
    ensures !Registers(e, u) && LastRegistration(p, u).None? ==> !OnlineAfter(p + [e], u)
  {
  }

  /** A fresh socket is held by no entry of the registry a run leaves. */
  lemma FreshSocketIsFree(p: seq<Event>, e: Event)
    requires e.Connected? && FreshSockets(p + [e]) && Describes(p, Replay(p))
    ensures e.socketId !in Replay(p).Values
  {
    var m := Replay(p);
    forall u | u in m ensures m[u] != e.socketId {
      var i := LastRegistration(p, u).value;
      assert (p + [e])[i] == p[i] && (p + [e])[|p|] == e;
    }
  }

  /** Replaying a run with fresh sockets leaves the registry it describes. */
  lemma {:induction false} ReplayIsOnlineUsers(h: seq<Event>)
    requires FreshSockets(h)
    ensures Describes(h, Replay(h))
    decreases |h|
  {
    if h != [] {
      var p, e := h[..|h| - 1], h[|h| - 1];
      assert h == p + [e];
      assert FreshSockets(p);
      ReplayIsOnlineUsers(p);
      var before := Replay(p);
      StepsPreserveInvariants(before, e.socketId, if e.Connected? then e.userId else None);
      if e.Connected? {
        FreshSocketIsFree(p, e);
      }
      forall u
        ensures u in Replay(h) <==> OnlineAfter(h, u)
        ensures u in Replay(h) ==>
          LastRegistration(h, u).Some? && Replay(h)[u] == h[LastRegistration(h, u).value].socketId
      {
        OnlineAfterSnoc(p, e, u);
        if !Registers(e, u) && LastRegistration(p, u).Some? {
          assert h[LastRegistration(p, u).value] == p[LastRegistration(p, u).value];
        }
      }
    }
  }
}
