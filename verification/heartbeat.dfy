/** Heartbeat configuration and the liveness test (internal/websocket/heartbeat.go). */
module Heartbeat {
  import opened Sessions

  /** Durations in seconds. */
  datatype HeartbeatConfig = HeartbeatConfig(pingInterval: nat, pongTimeout: nat, checkInterval: nat)

  function DefaultHeartbeatConfig(): (c: HeartbeatConfig)
    ensures c.pingInterval < c.pongTimeout
    ensures c.checkInterval == c.pingInterval
  {
    HeartbeatConfig(30, 60, 30)
  }

  /** A session alive for some timeout is alive for every longer one. */
  lemma IsAliveMonotone(s: Session, t: int, t': int, now: int)
    requires s.IsAlive(t, now) && t <= t'
    ensures s.IsAlive(t', now)
  {
  }

  /** Liveness degrades with time: alive now means alive at every earlier
      instant since the last ping. */
  lemma IsAliveAntitoneInTime(s: Session, t: int, now: int, earlier: int)
    requires s.IsAlive(t, now) && earlier <= now
    ensures s.IsAlive(t, earlier)
  {
  }
}
