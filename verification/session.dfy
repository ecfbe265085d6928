/** One live connection of one user (internal/websocket/session.go and the
    `IsAlive` check of heartbeat.go). The outbound channel of capacity 256 is
    the sequence `send`; the connection itself is represented by the frames
    the write pump has written to it. Times are integer seconds. */
module Sessions {
  import opened Wrappers
  import opened Events

  /** Capacity of the outbound buffer (`make(chan []byte, 256)`). */
  const Capacity := 256

  /** What `SendMessage` did with the envelope. Sending on a closed Go channel
      panics; the model reports that as `ClosedPanic` and changes nothing. */
  datatype SendResult = Enqueued | Dropped | ClosedPanic

  /** A frame written to the connection by the write pump. */
  datatype Frame = TextFrame(env: Envelope)

  /** The buffer after a non-blocking send of `env`: appended when there is
      room, otherwise the new item is dropped. */
  function Offer(buf: seq<Envelope>, env: Envelope): seq<Envelope> {
    if |buf| < Capacity then buf + [env] else buf
  }

  /** The buffer after `n` non-blocking sends of `env`. */
  function OfferN(buf: seq<Envelope>, env: Envelope, n: nat): seq<Envelope>
    decreases n
  {
    if n == 0 then buf else OfferN(Offer(buf, env), env, n - 1)
  }

  function Min(a: int, b: int): int {
    if a <= b then a else b
  }

  /** A send never grows the buffer past its capacity, keeps what was queued
      and appends at most the new item. */
  lemma OfferBounded(buf: seq<Envelope>, env: Envelope)
    requires |buf| <= Capacity
    ensures |Offer(buf, env)| <= Capacity
    ensures Offer(buf, env)[..|buf|] == buf
    ensures |Offer(buf, env)| == Min(|buf| + 1, Capacity)
  {
  }

  /** `n` sends keep the old buffer as a prefix and fill the free room with
      copies of `env`; everything beyond the room is dropped. */
  lemma {:induction false} OfferNShape(buf: seq<Envelope>, env: Envelope, n: nat)
    requires |buf| <= Capacity
    ensures |OfferN(buf, env, n)| == Min(|buf| + n, Capacity)
    ensures OfferN(buf, env, n)[..|buf|] == buf
    ensures forall i :: |buf| <= i < |OfferN(buf, env, n)| ==> OfferN(buf, env, n)[i] == env
    decreases n
  {
    if n > 0 {
      var b' := Offer(buf, env);
      OfferNShape(b', env, n - 1);
      assert OfferN(buf, env, n) == OfferN(b', env, n - 1);
      assert b'[..|buf|] == buf;
      var r := OfferN(b', env, n - 1);
      assert r[..|b'|] == b';
      assert r[..|buf|] == r[..|b'|][..|buf|];
    }
  }

  /** The frames written for a drained buffer, in buffer order. */
  function TextFrames(s: seq<Envelope>): (r: seq<Frame>)
    ensures |r| == |s|
    ensures forall i :: 0 <= i < |s| ==> r[i] == TextFrame(s[i])
  {
    seq(|s|, i requires 0 <= i < |s| => TextFrame(s[i]))
  }

  /** The observable state of a session, as one value. */
  datatype SessionState = SessionState(
    send: seq<Envelope>, lastPing: int, isClosed: bool, teardowns: nat,
    written: seq<Frame>, writerDone: bool)

  class Session {
    const id: string
    const userID: int
    /** Queued envelopes, oldest first. */
    var send: seq<Envelope>
    var lastPing: int
    var isClosed: bool
    /** How often the buffer and the connection have been closed. */
    var teardowns: nat
    /** Frames written to the connection so far. */
    var written: seq<Frame>
    /** The write pump has returned. */
    var writerDone: bool

    ghost predicate Valid()
      reads this
    {
      && |send| <= Capacity
      && teardowns == (if isClosed then 1 else 0)
      && (writerDone ==> isClosed)
    }

    function State(): SessionState
      reads this
    {
      SessionState(send, lastPing, isClosed, teardowns, written, writerDone)
    }

    /** `NewSession`: open, empty buffer, last ping at creation time. */
    constructor (id: string, userID: int, now: int)
      ensures Valid()
      ensures this.id == id && this.userID == userID
      ensures send == [] && lastPing == now && !isClosed && teardowns == 0
      ensures written == [] && !writerDone
    {
      this.id := id;
      this.userID := userID;
      send := [];
      lastPing := now;
      isClosed := false;
      teardowns := 0;
      written := [];
      writerDone := false;
    }

    /** Non-blocking enqueue of `{event, data, now}`. */
    method SendMessage(event: EventKind, data: Value, now: int) returns (r: SendResult)
      requires Valid()
      modifies this`send
      ensures Valid()
      ensures r == if isClosed then ClosedPanic else if |old(send)| < Capacity then Enqueued else Dropped
      ensures send == if isClosed then old(send) else Offer(old(send), Envelope(event, data, now))
    {
      if isClosed {
        r := ClosedPanic;
      } else if |send| < Capacity {
        send := send + [Envelope(event, data, now)];
        r := Enqueued;
      } else {
        r := Dropped;
      }
    }

    method UpdateLastPing(now: int)
      requires Valid()
      modifies this`lastPing
      ensures Valid() && lastPing == now
    {
      lastPing := now;
    }

    method GetLastPing() returns (t: int)
      ensures t == lastPing
    {
      t := lastPing;
    }

    /** Idempotent: the first call closes the buffer and the connection, later
        calls change nothing. */
    method Close()
      requires Valid()
      modifies this`isClosed, this`teardowns
      ensures Valid() && isClosed
      ensures teardowns == 1
      ensures old(isClosed) ==> teardowns == old(teardowns)
    {
      if isClosed {
        return;
      }
      isClosed := true;
      teardowns := teardowns + 1;
    }

    method IsClosed() returns (b: bool)
      ensures b == isClosed
    {
      b := isClosed;
    }

    /** `IsAlive`: the last ping is at most `timeout` seconds old, that is,
        it falls in the window that starts `timeout` seconds before now. */
    function IsAlive(timeout: int, now: int): (alive: bool)
      reads this
      ensures alive <==> lastPing >= now - timeout
    {
      now - lastPing <= timeout
    }

    /** `handleMessage`: a `ping` is answered with exactly one `pong`; every
        other event, and a frame that does not decode, is only logged. The
        reply's outcome is returned: on a closed session it is the panic of
        a send on the closed channel, which in the read goroutine would end
        the process. */
    method HandleMessage(frame: Inbound, now: int) returns (reply: Option<SendResult>)
      requires Valid()
      modifies this`send
      ensures Valid()
      ensures reply.Some? <==> frame.Decoded? && frame.env.event == Ping
      ensures reply.Some? ==> (reply.value == ClosedPanic <==> isClosed)
      ensures reply.Some? ==> (reply.value == Dropped <==> !isClosed && |old(send)| == Capacity)
      ensures frame.Decoded? && frame.env.event == Ping ==>
        send == (if isClosed then old(send) else Offer(old(send), Envelope(Pong, Null, now)))
      ensures !(frame.Decoded? && frame.env.event == Ping) ==> send == old(send)
    {
      reply := None;
      match frame
      case Malformed =>
      case Decoded(env) =>
        match env.event
        case Ping =>
          var r := SendMessage(Pong, Null, now);
          reply := Some(r);
        case Message =>
        case _ =>
    }

    /** The write pump. On an open connection it writes every queued
        envelope as a text frame, oldest first, and then waits for more.
        `Close` has already shut the connection, so on a closed session the
        pump's next write fails: it takes at most one envelope off the
        buffer, delivers nothing (not even its close frame) and returns for
        good. */
    method WritePump()
      requires Valid()
      modifies this`send, this`written, this`writerDone
      ensures Valid()
      ensures old(writerDone) ==> send == old(send) && written == old(written) && writerDone
      ensures !old(writerDone) && !isClosed ==>
        send == [] && !writerDone && written == old(written) + TextFrames(old(send))
      ensures !old(writerDone) && isClosed ==>
        writerDone && written == old(written) && send == (if old(send) == [] then [] else old(send)[1..])
    {
      if writerDone {
        return;
      }
      if isClosed {
        if send != [] {
          send := send[1..];
        }
        writerDone := true;
        return;
      }
      ghost var queued := send;
      var k := 0;
      while send != []
        invariant 0 <= k <= |queued|
        invariant !writerDone
        invariant send == queued[k..]
        invariant written == old(written) + TextFrames(queued[..k])
        decreases |send|
      {
        var message := send[0];
        send := send[1..];
        written := written + [TextFrame(message)];
        assert queued[..k + 1] == queued[..k] + [message];
        k := k + 1;
      }
      assert queued[..k] == queued;
    }
  }
}
