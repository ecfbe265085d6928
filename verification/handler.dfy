/** The WebSocket upgrade endpoint (internal/websocket/handler.go): token
    lookup (query parameter first, then a Bearer header), token check,
    upgrade, registration of a fresh session, and then the start of its
    write pump. The upgrade itself and the session id generator are inputs;
    the read pump is not part of this model. */
module WsGate {
  import opened Wrappers
  import opened Strs
  import opened Auth
  import opened Sessions
  import opened Registry

  /** The handler's answer before the upgrade. */
  datatype Gate = Refused(status: int, message: string) | Admitted(claims: Claims)

  const StatusUnauthorized := 401

  /** The token in an `Authorization` header: the part after `"Bearer "`,
      or "" when the header does not have that form. */
  function BearerToken(header: string): (t: string)
    ensures |header| >= 7 && header[..7] == "Bearer " ==> t == header[7..]
    ensures !(|header| >= 7 && header[..7] == "Bearer ") ==> t == ""
  {
    if header == "" then ""
    else
      var parts := SplitFirst(header, ' ');
      BearerPrefix(header);
      if |parts| == 2 && parts[0] == BearerScheme then parts[1] else ""
  }

  /** The query parameter wins whenever it is non-empty. */
  function ExtractToken(query: string, header: string): (t: string)
    ensures query != "" ==> t == query
    ensures query == "" ==> t == BearerToken(header)
  {
    if query != "" then query else BearerToken(header)
  }

  function Authenticate(query: string, header: string, parse: string -> Option<Claims>): (g: Gate)
    ensures ExtractToken(query, header) == "" ==> g == Refused(StatusUnauthorized, "missing token")
    ensures ExtractToken(query, header) != "" && parse(ExtractToken(query, header)).None? ==>
      g == Refused(StatusUnauthorized, "invalid token")
    ensures g.Admitted? <==> ExtractToken(query, header) != "" && parse(ExtractToken(query, header)).Some?
    ensures g.Admitted? ==> g.claims == parse(ExtractToken(query, header)).value
  {
    var token := ExtractToken(query, header);
    if token == "" then Refused(StatusUnauthorized, "missing token")
    else match parse(token)
      case None => Refused(StatusUnauthorized, "invalid token")
      case Some(c) => Admitted(c)
  }

  /** Without a query token, the WebSocket endpoint admits exactly the
      requests the HTTP middleware admits, with the same claims; only the
      error messages differ. */
  lemma GateAgreesWithMiddleware(header: string, parse: string -> Option<Claims>)
    ensures Authenticate("", header, parse).Admitted? <==> Authorize(header, parse).Accepted?
    ensures Authenticate("", header, parse).Admitted? ==>
      Authenticate("", header, parse).claims == Authorize(header, parse).claims
  {
  }

  /** A query token is used even when a valid header is present. */
  lemma QueryTokenWins(query: string, header: string, parse: string -> Option<Claims>)
    requires query != ""
    ensures Authenticate(query, header, parse) == Authenticate(query, "", parse)
  {
  }

  /** `HandleWebSocket`: on admission and a successful upgrade, a new session
      with the given id and the token's user is registered with the manager
      (closing any previous session of that user and publishing
      `friend_online`), and only then is its write pump started. A refused
      request or a failed upgrade touches nothing. */
  method HandleWebSocket(m: Manager, query: string, header: string, parse: string -> Option<Claims>,
                         upgraded: bool, sessionID: string, now: int)
    returns (g: Gate, s: Session?)
    requires m.Valid()
    modifies m, m.sessions.Values, m.bus`log
    ensures m.Valid()
    ensures g == Authenticate(query, header, parse)
    ensures m.cancelled == old(m.cancelled)
    ensures g.Refused? || !upgraded ==> s == null && m.sessions == old(m.sessions) && m.bus.log == old(m.bus.log)
    ensures g.Refused? || !upgraded ==> forall u :: u in old(m.sessions) ==> unchanged(old(m.sessions)[u])
    ensures g.Admitted? && upgraded ==>
      s != null && fresh(s) && s.id == sessionID && s.userID == g.claims.userID
      && !s.isClosed && s.send == [] && s.lastPing == now
      && s.written == [] && !s.writerDone
      && m.sessions == old(m.sessions)[g.claims.userID := s]
    ensures g.Admitted? && upgraded && g.claims.userID in old(m.sessions) ==>
      old(m.sessions)[g.claims.userID].State() == CloseState(old(m.sessions[g.claims.userID].State()))
    ensures g.Admitted? && upgraded ==>
      forall u :: u in old(m.sessions) && u != g.claims.userID ==> unchanged(old(m.sessions)[u])
    ensures g.Admitted? && upgraded ==>
      m.bus.log == old(m.bus.After(PresencePublication(g.claims.userID, true, now)))
  {
    g := Authenticate(query, header, parse);
    s := null;
    if g.Refused? || !upgraded {
      return;
    }
    s := new Session(sessionID, g.claims.userID, now);
    m.AddSession(s, now);
    // The write pump starts only once the session is registered; with
    // nothing queued yet it writes nothing and waits.
    s.WritePump();
  }
}
