/** The instance-local presence registry (internal/websocket/manager.go):
    a map from user id to that user's current session, with presence events
    published on the bus. The register/unregister channels, the ticker and
    the subscriber goroutine are replaced by direct, sequential calls. */
module Registry {
  import opened Wrappers
  import opened Events
  import opened Sessions
  import opened PubSub

  /** A session whose last ping is more than this many seconds old is dead. */
  const DeadThreshold := 90

  predicate IsDead(s: Session, now: int)
    reads s
  {
    now - s.lastPing > DeadThreshold
  }

  /** `IsAlive(90s)` is exactly the negation of the sweep's dead test. */
  lemma AliveIffNotDead(s: Session, now: int)
    ensures s.IsAlive(DeadThreshold, now) <==> !IsDead(s, now)
  {
  }

  /** The presence event `notifyFriendsOnline` publishes. */
  function PresencePublication(userID: int, online: bool, now: int): Publication {
    Publication(OnlineStatusChannel,
      Envelope(if online then FriendOnline else FriendOffline, OnlineStatusData(userID, online), now))
  }

  function OfflinePublications(ids: seq<int>, now: int): (r: seq<Publication>)
    ensures |r| == |ids|
    ensures forall i :: 0 <= i < |ids| ==> r[i] == PresencePublication(ids[i], false, now)
  {
    seq(|ids|, i requires 0 <= i < |ids| => PresencePublication(ids[i], false, now))
  }

  /** One more swept id adds its offline publication at the end. */
  lemma OfflinePublicationsSnoc(ids: seq<int>, u: int, now: int)
    ensures OfflinePublications(ids + [u], now) == OfflinePublications(ids, now) + [PresencePublication(u, false, now)]
  {
  }

  /** The recipient `handleRedisMessage` delivers to: only a `message` event
      whose data is an object with a numeric `to_user_id`. */
  function RedisTarget(frame: Inbound): Option<int> {
    match frame
    case Malformed => None
    case Decoded(env) =>
      if env.event == Message && env.data.Object? && "to_user_id" in env.data.fields
         && env.data.fields["to_user_id"].SNum?
      then Some(env.data.fields["to_user_id"].n)
      else None
  }

  /** Group messages, presence events and undecodable frames reach nobody. */
  lemma RedisTargetOnlyDirectMessages(frame: Inbound)
    requires frame.Malformed? || frame.env.event != Message
    ensures RedisTarget(frame) == None
  {
  }

  /** What `SendToUser` reports. The Go function returns nil in every case
      that does not panic. */
  datatype Delivery = NoSession | Delivered(result: SendResult)

  /** One session's state after `SendMessage(env)`. */
  function OfferState(st: SessionState, env: Envelope): SessionState {
    if st.isClosed then st else st.(send := Offer(st.send, env))
  }

  /** The registry's sessions after `SendToUser(u, env)`. */
  function Deliver(snap: map<int, SessionState>, u: int, env: Envelope): map<int, SessionState> {
    if u in snap then snap[u := OfferState(snap[u], env)] else snap
  }

  /** `SendToUsers`: one `SendToUser` per id, in order; a closed session
      panics, which ends the loop (the Boolean is false then). */
  function DeliverEach(snap: map<int, SessionState>, ids: seq<int>, env: Envelope): (map<int, SessionState>, bool)
    decreases |ids|
  {
    if ids == [] then (snap, true)
    else if ids[0] in snap && snap[ids[0]].isClosed then (snap, false)
    else DeliverEach(Deliver(snap, ids[0], env), ids[1..], env)
  }

  /** A session's state after a close. */
  function CloseState(st: SessionState): SessionState {
    if st.isClosed then st else st.(isClosed := true, teardowns := st.teardowns + 1)
  }

  /** A panic-free `SendToUsers` gives each registered user one send per
      occurrence of its id, each subject to the capacity bound, and touches
      nothing but buffers. */
  lemma {:induction false} DeliverEachBuffers(snap: map<int, SessionState>, ids: seq<int>, env: Envelope)
    requires DeliverEach(snap, ids, env).1
    ensures DeliverEach(snap, ids, env).0.Keys == snap.Keys
    ensures forall u :: u in snap ==>
      DeliverEach(snap, ids, env).0[u] == snap[u].(send := OfferN(snap[u].send, env, multiset(ids)[u]))
    decreases |ids|
  {
    if ids == [] {
      forall u | u in snap
        ensures snap[u] == snap[u].(send := OfferN(snap[u].send, env, multiset(ids)[u]))
      {
      }
    } else {
      var x := ids[0];
      var snap' := Deliver(snap, x, env);
      DeliverEachBuffers(snap', ids[1..], env);
      forall u | u in snap
        ensures DeliverEach(snap, ids, env).0[u] == snap[u].(send := OfferN(snap[u].send, env, multiset(ids)[u]))
      {
        assert ids == [x] + ids[1..];
        assert multiset(ids)[u] == multiset(ids[1..])[u] + (if x == u then 1 else 0);
      }
    }
  }

  /** `SendToUsers` stops exactly when it reaches a registered, closed session. */
  lemma {:induction false} DeliverEachCompletes(snap: map<int, SessionState>, ids: seq<int>, env: Envelope)
    ensures DeliverEach(snap, ids, env).1 <==> forall i :: 0 <= i < |ids| ==> ids[i] !in snap || !snap[ids[i]].isClosed
    decreases |ids|
  {
    if ids != [] && !(ids[0] in snap && snap[ids[0]].isClosed) {
      DeliverEachCompletes(Deliver(snap, ids[0], env), ids[1..], env);
      var snap' := Deliver(snap, ids[0], env);
      assert forall u :: u in snap' <==> u in snap;
      assert forall u :: u in snap ==> snap'[u].isClosed == snap[u].isClosed;
      assert forall i :: 1 <= i < |ids| ==> ids[i] == ids[1..][i - 1];
    }
  }

  lemma NonEmptyHasMember(s: set<int>)
    requires s != {}
    ensures exists x :: x in s
  {
    if forall x :: x !in s {
      assert false;
    }
  }

  /** The keys of an id-keyed map as a list without repeats, in whatever
      order the map is walked (Go's map iteration order is unspecified). */
  method ListKeys(ids: set<int>) returns (xs: seq<int>)
    ensures forall u :: u in xs <==> u in ids
    ensures forall i, j :: 0 <= i < j < |xs| ==> xs[i] != xs[j]
    ensures |xs| == |ids|
  {
    xs := [];
    var remaining := ids;
    ghost var seen: set<int> := {};
    while remaining != {}
      invariant remaining + seen == ids && remaining !! seen
      invariant forall u :: u in xs <==> u in seen
      invariant forall i, j :: 0 <= i < j < |xs| ==> xs[i] != xs[j]
      invariant |xs| == |seen|
      decreases |remaining|
    {
      NonEmptyHasMember(remaining);
      var u :| u in remaining;
      assert |seen + {u}| == |seen| + 1;
      xs := xs + [u];
      seen := seen + {u};
      remaining := remaining - {u};
    }
    assert seen == ids;
  }

  class Manager {
    var sessions: map<int, Session>
    /** Whether the manager's context has been cancelled. It stops the
        `Run`, heartbeat and subscriber loops, which are replaced by direct
        calls. Presence publishes also carry this context and fail once it
        is cancelled; the model's publishes depend only on the bus being up. */
    var cancelled: bool
    const bus: Bus

    ghost predicate Valid()
      reads this, sessions.Values
    {
      forall u :: u in sessions ==> sessions[u].userID == u && sessions[u].Valid()
    }

    /** The state of every registered session, by user. */
    ghost function Snapshot(): map<int, SessionState>
      reads this, sessions.Values
    {
      map u | u in sessions :: sessions[u].State()
    }

    constructor (bus: Bus)
      ensures Valid() && sessions == map[] && !cancelled && this.bus == bus
    {
      sessions := map[];
      cancelled := false;
      this.bus := bus;
    }

    /** `addSession`: a previous session of the same user is closed first,
        then the new one becomes current ("last register wins"); a
        `friend_online` event is published either way. */
    method AddSession(s: Session, now: int)
      requires Valid() && s.Valid()
      modifies this, sessions.Values, bus`log
      ensures Valid()
      ensures sessions == old(sessions)[s.userID := s] && cancelled == old(cancelled)
      ensures s.userID in old(sessions) ==>
        old(sessions)[s.userID].State() == CloseState(old(sessions[s.userID].State()))
      ensures forall u :: u in old(sessions) && u != s.userID ==> unchanged(old(sessions)[u])
      ensures s !in old(sessions).Values ==> unchanged(s)
      ensures bus.log == old(bus.After(PresencePublication(s.userID, true, now)))
    {
      if s.userID in sessions {
        var oldSession := sessions[s.userID];
        oldSession.Close();
      }
      sessions := sessions[s.userID := s];
      NotifyFriendsOnline(s.userID, true, now);
    }

    /** `removeSession`: drops whatever session is stored for the user, even
        a newer one than `s`; `friend_offline` is published only if an entry
        was removed. No session is closed. */
    method RemoveSession(s: Session, now: int)
      requires Valid()
      modifies this, bus`log
      ensures Valid()
      ensures sessions == old(sessions) - {s.userID} && cancelled == old(cancelled)
      ensures bus.log == if s.userID in old(sessions)
                         then old(bus.After(PresencePublication(s.userID, false, now)))
                         else old(bus.log)
    {
      if s.userID in sessions {
        sessions := sessions - {s.userID};
        NotifyFriendsOnline(s.userID, false, now);
      }
    }

    method GetSession(userID: int) returns (session: Session?, ok: bool)
      ensures ok <==> userID in sessions
      ensures ok ==> session == sessions[userID]
      ensures !ok ==> session == null
    {
      if userID in sessions {
        session, ok := sessions[userID], true;
      } else {
        session, ok := null, false;
      }
    }

    method IsOnline(userID: int) returns (online: bool)
      ensures online <==> userID in sessions
    {
      var _, ok := GetSession(userID);
      online := ok;
    }

    /** `SendToUser`: nothing happens for an absent user; otherwise the
        user's session does a non-blocking send. */
    method SendToUser(userID: int, event: EventKind, data: Value, now: int) returns (d: Delivery)
      requires Valid()
      modifies sessions.Values
      ensures Valid()
      ensures Snapshot() == Deliver(old(Snapshot()), userID, Envelope(event, data, now))
      ensures userID !in sessions ==> d == NoSession
      ensures userID in sessions ==> d == Delivered(
        if sessions[userID].isClosed then ClosedPanic
        else if |old(sessions[userID].send)| < Capacity then Enqueued else Dropped)
    {
      var session, ok := GetSession(userID);
      if !ok {
        d := NoSession;
        return;
      }
      var r := session.SendMessage(event, data, now);
      d := Delivered(r);
      forall u | u in sessions && u != userID
        ensures sessions[u] != session
      {
      }
    }

    /** `SendToUsers`: `SendToUser` for each id in order. */
    method SendToUsers(userIDs: seq<int>, event: EventKind, data: Value, now: int) returns (completed: bool)
      requires Valid()
      modifies sessions.Values
      ensures Valid()
      ensures (Snapshot(), completed) == DeliverEach(old(Snapshot()), userIDs, Envelope(event, data, now))
    {
      var i := 0;
      while i < |userIDs|
        invariant 0 <= i <= |userIDs|
        invariant Valid()
        invariant DeliverEach(Snapshot(), userIDs[i..], Envelope(event, data, now))
               == DeliverEach(old(Snapshot()), userIDs, Envelope(event, data, now))
      {
        var u := userIDs[i];
        if u in sessions && sessions[u].isClosed {
          return false;
        }
        assert userIDs[i..][1..] == userIDs[i + 1..];
        var _ := SendToUser(u, event, data, now);
        i := i + 1;
      }
      completed := true;
    }

    /** `Broadcast`: one send to every registered session, in no particular
        order; a closed session panics and ends the loop. */
    method Broadcast(event: EventKind, data: Value, now: int) returns (completed: bool)
      requires Valid()
      modifies sessions.Values
      ensures Valid()
      ensures completed <==> forall u :: u in sessions ==> !old(sessions[u].isClosed)
      ensures forall u :: u in sessions ==>
        sessions[u].State() == old(sessions[u].State())
        || sessions[u].State() == OfferState(old(sessions[u].State()), Envelope(event, data, now))
      ensures completed ==> forall u :: u in sessions ==>
        sessions[u].State() == OfferState(old(sessions[u].State()), Envelope(event, data, now))
    {
      var env := Envelope(event, data, now);
      var remaining := sessions.Keys;
      while remaining != {}
        invariant remaining <= sessions.Keys
        invariant Valid()
        invariant forall u :: u in remaining ==> sessions[u].State() == old(sessions[u].State())
        invariant forall u :: u in sessions && u !in remaining ==>
          !old(sessions[u].isClosed) && sessions[u].State() == OfferState(old(sessions[u].State()), env)
        decreases |remaining|
      {
        NonEmptyHasMember(remaining);
        var u :| u in remaining;
        if sessions[u].isClosed {
          return false;
        }
        OfferOne(u, event, data, now);
        remaining := remaining - {u};
      }
      completed := true;
    }

    /** `GetOnlineUserIDs`: every registered user exactly once. */
    method GetOnlineUserIDs() returns (userIDs: seq<int>)
      ensures forall u :: u in userIDs <==> u in sessions
      ensures forall i, j :: 0 <= i < j < |userIDs| ==> userIDs[i] != userIDs[j]
      ensures |userIDs| == |sessions|
    {
      userIDs := ListKeys(sessions.Keys);
    }

    /** The sweep's first loop: the sessions whose last ping is more than
        90 seconds before `now`. */
    method CollectDead(now: int) returns (dead: seq<Session>)
      requires Valid()
      ensures forall i :: 0 <= i < |dead| ==>
        dead[i].userID in sessions && sessions[dead[i].userID] == dead[i] && IsDead(dead[i], now)
      ensures forall u :: u in sessions && IsDead(sessions[u], now) ==> sessions[u] in dead
      ensures forall i, j :: 0 <= i < j < |dead| ==> dead[i].userID != dead[j].userID
    {
      dead := [];
      var remaining := sessions.Keys;
      while remaining != {}
        invariant remaining <= sessions.Keys
        invariant forall i :: 0 <= i < |dead| ==>
          dead[i].userID in sessions - remaining && sessions[dead[i].userID] == dead[i] && IsDead(dead[i], now)
        invariant forall u :: u in sessions && u !in remaining && IsDead(sessions[u], now) ==> sessions[u] in dead
        invariant forall i, j :: 0 <= i < j < |dead| ==> dead[i].userID != dead[j].userID
        decreases |remaining|
      {
        NonEmptyHasMember(remaining);
        var u :| u in remaining;
        if IsDead(sessions[u], now) {
          dead := dead + [sessions[u]];
        }
        remaining := remaining - {u};
      }
    }

    /** `checkDeadConnections`: every dead session is unregistered (and a
        `friend_offline` published for it); alive ones, including a session
        exactly 90 seconds old, stay. Dead sessions are not closed here. */
    method CheckDeadConnections(now: int) returns (ghost deadIDs: seq<int>)
      requires Valid()
      modifies this, bus`log
      ensures Valid() && cancelled == old(cancelled)
      ensures forall u :: u in sessions <==> u in old(sessions) && !IsDead(old(sessions)[u], now)
      ensures forall u :: u in sessions ==> sessions[u] == old(sessions)[u]
      ensures forall u :: u in deadIDs <==> u in old(sessions) && IsDead(old(sessions)[u], now)
      ensures forall i, j :: 0 <= i < j < |deadIDs| ==> deadIDs[i] != deadIDs[j]
      ensures bus.log == old(bus.log) + (if bus.up then OfflinePublications(deadIDs, now) else [])
    {
      var dead := CollectDead(now);
      deadIDs := [];
      var i := 0;
      while i < |dead|
        invariant 0 <= i <= |dead|
        invariant Valid() && cancelled == old(cancelled)
        invariant |deadIDs| == i && forall k :: 0 <= k < i ==> deadIDs[k] == dead[k].userID
        invariant forall u :: u in sessions <==> u in old(sessions) && u !in deadIDs
        invariant forall u :: u in sessions ==> sessions[u] == old(sessions)[u]
        invariant bus.log == old(bus.log) + (if bus.up then OfflinePublications(deadIDs, now) else [])
      {
        var s := dead[i];
        RemoveSession(s, now);
        OfflinePublicationsSnoc(deadIDs, s.userID, now);
        deadIDs := deadIDs + [s.userID];
        i := i + 1;
      }
      forall u | u in old(sessions) && IsDead(old(sessions)[u], now)
        ensures u in deadIDs
      {
        var k :| 0 <= k < |dead| && dead[k] == old(sessions)[u];
        assert deadIDs[k] == u;
      }
    }

    /** `handleRedisMessage`: a direct message is handed to `SendToUser`
        with the decoded event and data; everything else is dropped. */
    method HandleRedisMessage(frame: Inbound, now: int)
      requires Valid()
      modifies sessions.Values
      ensures Valid()
      ensures RedisTarget(frame).None? ==> Snapshot() == old(Snapshot())
      ensures RedisTarget(frame).Some? ==>
        Snapshot() == Deliver(old(Snapshot()), RedisTarget(frame).value, Envelope(frame.env.event, frame.env.data, now))
    {
      match RedisTarget(frame)
      case None =>
      case Some(u) =>
        var _ := SendToUser(u, frame.env.event, frame.env.data, now);
    }

    /** `notifyFriendsOnline`: publishes the presence event on the status channel. */
    method NotifyFriendsOnline(userID: int, online: bool, now: int)
      modifies bus`log
      ensures bus.log == old(bus.After(PresencePublication(userID, online, now)))
    {
      var p := PresencePublication(userID, online, now);
      var _ := bus.Publish(p.channel, p.envelope);
    }

    /** Offers one message to the open session of `u` and no other. */
    method OfferOne(u: int, event: EventKind, data: Value, now: int)
      requires Valid() && u in sessions && !sessions[u].isClosed
      modifies sessions[u]
      ensures Valid()
      ensures sessions[u].State() == OfferState(old(sessions[u].State()), Envelope(event, data, now))
      ensures forall v :: v in sessions && v != u ==> sessions[v].State() == old(sessions[v].State())
    {
      forall v | v in sessions && v != u
        ensures sessions[v] != sessions[u]
      {
      }
      var _ := sessions[u].SendMessage(event, data, now);
    }

    /** Closes the session of `u` and no other. */
    method CloseOne(u: int)
      requires Valid() && u in sessions
      modifies sessions[u]
      ensures Valid()
      ensures sessions[u].State() == CloseState(old(sessions[u].State()))
      ensures forall v :: v in sessions && v != u ==> sessions[v].State() == old(sessions[v].State())
    {
      forall v | v in sessions && v != u
        ensures sessions[v] != sessions[u]
      {
      }
      sessions[u].Close();
    }

    /** `Stop`: cancels the manager and closes every registered session; the
        map itself is left as it is. */
    method Stop()
      requires Valid()
      modifies this`cancelled, sessions.Values
      ensures Valid() && cancelled
      ensures sessions == old(sessions)
      ensures forall u :: u in sessions ==> sessions[u].State() == CloseState(old(sessions[u].State()))
    {
      cancelled := true;
      var remaining := sessions.Keys;
      while remaining != {}
        invariant remaining <= sessions.Keys && cancelled
        invariant Valid()
        invariant forall u :: u in remaining ==> sessions[u].State() == old(sessions[u].State())
        invariant forall u :: u in sessions && u !in remaining ==>
          sessions[u].State() == CloseState(old(sessions[u].State()))
        decreases |remaining|
      {
        NonEmptyHasMember(remaining);
        var u :| u in remaining;
        CloseOne(u);
        remaining := remaining - {u};
      }
    }
  }
}
