/** The HTTP authentication middleware (internal/middleware/auth.go): the
    `Authorization: Bearer <token>` gate in front of every protected route,
    and the two context accessors handlers use afterwards. Token parsing
    (signature, expiry) is a parameter: `parse(t)` is `Some(claims)` exactly
    when the JWT manager accepts `t`. */
module Auth {
  import opened Wrappers
  import opened Strs

  /** The claims carried by an access token. */
  datatype Claims = Claims(userID: int, username: string)

  /** What the middleware does with a request. */
  datatype AuthResult = Rejected(message: string) | Accepted(claims: Claims)

  /** The per-request key/value context; only the two keys the middleware sets. */
  datatype RequestContext = RequestContext(userID: Option<int>, username: Option<string>)

  const BearerScheme := "Bearer"

  /** The middleware's decision, first failing check first. */
  function Authorize(header: string, parse: string -> Option<Claims>): (r: AuthResult)
    ensures header == "" ==> r == Rejected("missing authorization header")
    ensures header != "" && !(|header| >= 7 && header[..7] == "Bearer ") ==>
      r == Rejected("invalid authorization header format")
    ensures header == "Bearer " ==> r == Rejected("token is empty")
    ensures r.Accepted? <==>
      |header| > 7 && header[..7] == "Bearer " && parse(header[7..]).Some?
    ensures r.Accepted? ==> r.claims == parse(header[7..]).value
    ensures r.Rejected? && |header| > 7 && header[..7] == "Bearer " ==> r.message == "invalid or expired token"
  {
    if header == "" then Rejected("missing authorization header")
    else
      var parts := SplitFirst(header, ' ');
      BearerPrefix(header);
      if |parts| != 2 || parts[0] != BearerScheme then Rejected("invalid authorization header format")
      else if parts[1] == "" then Rejected("token is empty")
      else match parse(parts[1])
        case None => Rejected("invalid or expired token")
        case Some(c) => Accepted(c)
  }

  /** SplitN(" ", 2) yields `["Bearer", t]` exactly when the header is
      `"Bearer "` followed by `t`. */
  lemma BearerPrefix(header: string)
    ensures var parts := SplitFirst(header, ' ');
      (|parts| == 2 && parts[0] == BearerScheme) <==> (|header| >= 7 && header[..7] == "Bearer ")
    ensures var parts := SplitFirst(header, ' ');
      |header| >= 7 && header[..7] == "Bearer " ==> parts[1] == header[7..]
  {
    if |header| >= 7 && header[..7] == "Bearer " {
      assert header == "Bearer" + [' '] + header[7..];
      SplitFirstOfJoin("Bearer", header[7..], ' ');
    }
  }

  /** A well-formed header with a token the parser accepts is let through
      with that token's claims. */
  lemma AuthorizeBearer(token: string, parse: string -> Option<Claims>)
    requires parse(token).Some?
    requires token != ""
    ensures Authorize("Bearer " + token, parse) == Accepted(parse(token).value)
  {
    assert ("Bearer " + token)[7..] == token;
    assert ("Bearer " + token)[..7] == "Bearer ";
  }

  /** The context after the middleware lets a request through: both keys set. */
  function Admit(ctx: RequestContext, c: Claims): (r: RequestContext)
    ensures r.userID == Some(c.userID) && r.username == Some(c.username)
  {
    RequestContext(Some(c.userID), Some(c.username))
  }

  /** `GetUserID`: the stored id, or 0 when the middleware did not run. */
  function GetUserID(ctx: RequestContext): (id: int)
    ensures ctx.userID.None? ==> id == 0
    ensures ctx.userID.Some? ==> id == ctx.userID.value
  {
    ctx.userID.GetOr(0)
  }

  /** `GetUsername`: the stored name, or "" when the middleware did not run. */
  function GetUsername(ctx: RequestContext): (name: string)
    ensures ctx.username.None? ==> name == ""
    ensures ctx.username.Some? ==> name == ctx.username.value
  {
    ctx.username.GetOr("")
  }
}
