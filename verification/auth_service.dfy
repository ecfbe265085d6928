/** Registration and login (internal/service/auth_service.go). Password
    hashing is the symbolic `Hash`; token generation is a function passed
    in, `genToken(userID, username)`. */
module AuthService {
  import opened Wrappers
  import opened Models
  import opened Requests
  import opened UserStore

  /** The row `Register` inserts: the password hashed, the nickname
      defaulting to the user name, no avatar. */
  function NewUser(id: int, req: RegisterRequest): (u: User)
    ensures u.id == id && u.username == req.username && u.email == req.email && u.avatar == ""
    ensures u.password == Hash(req.password)
    ensures u.nickname == (if req.nickname == "" then req.username else req.nickname)
  {
    User(id, req.username, Hash(req.password), if req.nickname == "" then req.username else req.nickname, "", req.email)
  }

  /** The stored password checks against the registered password and no
      other. */
  lemma NewUserPasswordChecks(id: int, req: RegisterRequest, password: string)
    ensures Matches(NewUser(id, req).password, password) <==> password == req.password
  {
    if Matches(NewUser(id, req).password, password) {
      HashInjective(req.password, password);
    }
  }

  /** A validated registration yields a row that fits its columns, given an
      e-mail address no longer than its column. */
  lemma NewUserFits(id: int, req: RegisterRequest, isEmail: string -> bool)
    requires ValidRegister(req, isEmail) && |req.email| <= EmailWidth
    ensures UserFits(NewUser(id, req))
  {
  }

  datatype LoginResponse = LoginResponse(token: string, user: User)

  const BadCredentials := "username or password incorrect"

  class AuthServiceImpl {
    const users: UserRepo

    constructor (users: UserRepo)
      ensures this.users == users
    {
      this.users := users;
    }

    /** `Register`: a taken user name fails and inserts nothing; otherwise
        the new user is inserted under the next id. */
    method Register(req: RegisterRequest) returns (res: Result<User>)
      requires users.Valid()
      modifies users
      ensures users.Valid()
      ensures res.Err? <==> old(users.Taken(req.username))
      ensures res.Err? ==> (res == Err("username already exists")
                            && users.rows == old(users.rows) && users.nextID == old(users.nextID))
      ensures res.Ok? ==> res.value == NewUser(old(users.nextID), req) && users.rows == old(users.rows) + [res.value]
    {
      var existing := users.GetByUsername(req.username);
      if existing.Some? {
        return Err("username already exists");
      }
      var user := User(0, req.username, Hash(req.password), req.nickname, "", req.email);
      if user.nickname == "" {
        user := user.(nickname := req.username);
      }
      var created := users.Create(user);
      res := if created.Some? then Ok(created.value) else Err("username already exists");
    }

    /** `Login`: an unknown user name and a wrong password give the same
        error; otherwise a token for the user's id and name, with the user. */
    function Login(req: LoginRequest, genToken: (int, string) -> string): (r: Result<LoginResponse>)
      requires users.Valid()
      reads users
      ensures r.Err? ==> r.error == BadCredentials
      ensures r.Ok? <==> (exists i :: 0 <= i < |users.rows| && users.rows[i].username == req.username
                                 && Matches(users.rows[i].password, req.password))
      ensures r.Ok? ==> (r.value.user in users.rows && r.value.user.username == req.username
                         && r.value.token == genToken(r.value.user.id, r.value.user.username))
    {
      match users.GetByUsername(req.username)
      case None => Err(BadCredentials)
      case Some(u) =>
        if !Matches(u.password, req.password) then Err(BadCredentials)
        else Ok(LoginResponse(genToken(u.id, u.username), u))
    }
  }

  /** A registered user logs in with the registered password, and gets
      back the registered row. */
  lemma LoginAfterRegister(svc: AuthServiceImpl, id: int, req: RegisterRequest, genToken: (int, string) -> string)
    requires svc.users.Valid() && NewUser(id, req) in svc.users.rows
    ensures svc.Login(LoginRequest(req.username, req.password), genToken)
         == Ok(LoginResponse(genToken(id, req.username), NewUser(id, req)))
  {
    var k :| 0 <= k < |svc.users.rows| && svc.users.rows[k] == NewUser(id, req);
    var found := svc.users.GetByUsername(req.username);
    assert found.Some?;
    var j :| 0 <= j < |svc.users.rows| && svc.users.rows[j] == found.value;
    assert j == k;
  }
}
