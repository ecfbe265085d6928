/** Profile reads and updates (internal/service/user_service.go). */
module UserService {
  import opened Wrappers
  import opened Models
  import opened Requests
  import opened UserStore

  /** `UpdateUser`'s field merge: a non-empty nickname, avatar or email
      replaces the stored one, an empty one keeps it. */
  function MergeUser(u: User, req: UpdateUserRequest): (r: User)
    ensures r.id == u.id && r.username == u.username && r.password == u.password
    ensures r.nickname == (if req.nickname != "" then req.nickname else u.nickname)
    ensures r.avatar == (if req.avatar != "" then req.avatar else u.avatar)
    ensures r.email == (if req.email != "" then req.email else u.email)
  {
    u.(nickname := if req.nickname != "" then req.nickname else u.nickname,
       avatar := if req.avatar != "" then req.avatar else u.avatar,
       email := if req.email != "" then req.email else u.email)
  }

  /** Applying the same update twice is the same as once. */
  lemma MergeUserIdempotent(u: User, req: UpdateUserRequest)
    ensures MergeUser(MergeUser(u, req), req) == MergeUser(u, req)
  {
  }

  /** An all-empty update leaves the user as it was. */
  lemma MergeUserEmpty(u: User)
    ensures MergeUser(u, UpdateUserRequest("", "", "")) == u
  {
  }

  /** A validated update keeps a fitting row fitting, given an e-mail
      address no longer than its column (the request's binding tags do not
      bound its length). */
  lemma MergeUserFits(u: User, req: UpdateUserRequest, isEmail: string -> bool)
    requires UserFits(u) && ValidUpdateUser(req, isEmail) && |req.email| <= EmailWidth
    ensures UserFits(MergeUser(u, req))
  {
  }

  class UserServiceImpl {
    const users: UserRepo

    constructor (users: UserRepo)
      ensures this.users == users
    {
      this.users := users;
    }

    /** `GetUserByID`: the user with that id, or "user not found". */
    method GetUserByID(id: int) returns (res: Result<User>)
      ensures res.Ok? ==> res.value in users.rows && res.value.id == id
      ensures res.Err? <==> forall i :: 0 <= i < |users.rows| ==> users.rows[i].id != id
      ensures res.Err? ==> res.error == "user not found"
    {
      var found := users.GetByID(id);
      if found.None? {
        return Err("user not found");
      }
      res := Ok(found.value);
    }

    /** `UpdateUser`: merges the request into the stored user and saves it;
        only that user's row changes, and only in the merged columns. */
    method UpdateUser(userID: int, req: UpdateUserRequest) returns (res: Result<User>)
      requires users.Valid()
      modifies users`rows
      ensures users.Valid()
      ensures res.Err? <==> forall i :: 0 <= i < |old(users.rows)| ==> old(users.rows)[i].id != userID
      ensures res.Err? ==> res == Err("user not found") && users.rows == old(users.rows)
      ensures res.Ok? ==> (exists k :: 0 <= k < |old(users.rows)| && old(users.rows)[k].id == userID
                             && res.value == MergeUser(old(users.rows)[k], req))
      ensures res.Ok? ==> |users.rows| == |old(users.rows)| && forall i :: 0 <= i < |users.rows| ==>
        users.rows[i] == if old(users.rows)[i].id == userID then res.value else old(users.rows)[i]
    {
      var found := users.GetByID(userID);
      if found.None? {
        return Err("user not found");
      }
      var merged := MergeUser(found.value, req);
      ghost var k :| 0 <= k < |users.rows| && users.rows[k] == found.value;
      assert forall i :: 0 <= i < |users.rows| && users.rows[i].id != userID ==>
        i != k && users.rows[i].username != merged.username;
      var ok := users.Update(merged);
      res := if ok then Ok(merged) else Err("username already exists");
    }

    /** `SearchUsers`: exactly the repository's search. */
    method SearchUsers(keyword: string, offset: int, limit: int) returns (r: seq<User>)
      ensures r == users.Search(keyword, offset, limit)
      ensures forall i :: 0 <= i < |r| ==> r[i] in users.rows && SearchHit(r[i], keyword)
    {
      r := users.Search(keyword, offset, limit);
    }

    /** `GetUsersByIDs`: exactly the repository's lookup by ids. */
    method GetUsersByIDs(ids: seq<int>) returns (r: seq<User>)
      ensures r == users.GetByIDs(ids)
      ensures forall i :: 0 <= i < |r| ==> r[i] in users.rows && r[i].id in ids
    {
      r := users.GetByIDs(ids);
    }
  }
}
