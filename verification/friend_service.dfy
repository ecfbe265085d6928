/** Friend requests and friend lists (internal/service/friend_service.go).
    A request is a pending row `(sender → target)`; accepting it turns that
    row accepted and adds the reverse accepted row; rejecting turns it
    rejected. Errors are messages (`None` is success). */
module FriendService {
  import opened Wrappers
  import opened Models
  import opened Seqs
  import opened Requests
  import opened UserStore
  import opened FriendStore

  /** A friend row together with the other user's record. */
  datatype FriendResponse = FriendResponse(row: Friend, info: User)

  /** `AddFriend`'s checks, in the order the service makes them: the
      target must exist, must not be the caller, and the first
      `(caller → target)` row must be neither accepted nor pending. */
  function AddFriendError(targetExists: bool, userID: int, friendID: int, existing: Option<Friend>): (err: Option<string>)
    ensures !targetExists ==> err == Some("friend not found")
    ensures targetExists && userID == friendID ==> err == Some("cannot add yourself as friend")
    ensures (targetExists && userID != friendID && existing.Some? && existing.value.status == FriendStatusAccepted) ==>
      err == Some("already friends")
    ensures (targetExists && userID != friendID && existing.Some? && existing.value.status == FriendStatusPending) ==>
      err == Some("friend request already sent")
    ensures err.None? <==>
      targetExists && userID != friendID && (existing.None? || existing.value.status !in {FriendStatusAccepted, FriendStatusPending})
  {
    if !targetExists then Some("friend not found")
    else if userID == friendID then Some("cannot add yourself as friend")
    else if existing.Some? && existing.value.status == FriendStatusAccepted then Some("already friends")
    else if existing.Some? && existing.value.status == FriendStatusPending then Some("friend request already sent")
    else None
  }

  /** `HandleFriendRequest`'s checks on the first `(sender → caller)` row. */
  function HandleError(request: Option<Friend>): (err: Option<string>)
    ensures request.None? ==> err == Some("friend request not found")
    ensures request.Some? && request.value.status != FriendStatusPending ==> err == Some("friend request already handled")
    ensures err.None? <==> request.Some? && request.value.status == FriendStatusPending
  {
    if request.None? then Some("friend request not found")
    else if request.value.status != FriendStatusPending then Some("friend request already handled")
    else None
  }

  /** The user a row refers to: the friend for a friend list, the sender for
      a request list. */
  function Other(f: Friend, bySender: bool): int {
    if bySender then f.userID else f.friendID
  }

  /** Each row whose other user is in `m`, paired with that user, in row order. */
  function Responses(fs: seq<Friend>, m: map<int, User>, bySender: bool): (r: seq<FriendResponse>)
    ensures |r| <= |fs|
    ensures forall i :: 0 <= i < |r| ==>
      r[i].row in fs && Other(r[i].row, bySender) in m && r[i].info == m[Other(r[i].row, bySender)]
    ensures forall j :: 0 <= j < |fs| && Other(fs[j], bySender) in m ==>
      FriendResponse(fs[j], m[Other(fs[j], bySender)]) in r
    decreases |fs|
  {
    if fs == [] then []
    else
      var init := fs[..|fs| - 1];
      var f := fs[|fs| - 1];
      var rest := Responses(init, m, bySender);
      assert forall i :: 0 <= i < |rest| ==> rest[i].row in init;
      assert forall j :: 0 <= j < |init| ==> init[j] == fs[j];
      rest + (if Other(f, bySender) in m then [FriendResponse(f, m[Other(f, bySender)])] else [])
  }

  /** The ids a list function looks up. */
  function Others(fs: seq<Friend>, bySender: bool): (ids: seq<int>)
    ensures |ids| == |fs| && forall i :: 0 <= i < |fs| ==> ids[i] == Other(fs[i], bySender)
  {
    seq(|fs|, i requires 0 <= i < |fs| => Other(fs[i], bySender))
  }

  /** What `GetFriendList` / `GetFriendRequests` return for the selected
      rows: the other users' ids are collected, the users with those ids
      fetched and indexed by id, and each row paired with its user. */
  function Listing(fs: seq<Friend>, users: seq<User>, bySender: bool): seq<FriendResponse> {
    Responses(fs, UserIndex(Filter(users, (u: User) => u.id in Others(fs, bySender))), bySender)
  }

  /** A listing holds selected rows, each paired with the user on its other
      side, and every selected row whose other side is a user appears. */
  lemma ListingSpec(fs: seq<Friend>, users: seq<User>, bySender: bool)
    ensures var r := Listing(fs, users, bySender);
      |r| <= |fs|
      && (forall i :: 0 <= i < |r| ==>
            r[i].row in fs && r[i].info in users && r[i].info.id == Other(r[i].row, bySender))
      && (forall j, k :: 0 <= j < |fs| && 0 <= k < |users| && users[k].id == Other(fs[j], bySender) ==>
            exists i :: 0 <= i < |r| && r[i].row == fs[j])
  {
    var ids := Others(fs, bySender);
    var found := Filter(users, (u: User) => u.id in ids);
    var m := UserIndex(found);
    var r := Responses(fs, m, bySender);
    assert r == Listing(fs, users, bySender);
    forall i | 0 <= i < |r|
      ensures r[i].info in users
    {
      assert m[Other(r[i].row, bySender)] in found;
    }
    forall j, k | 0 <= j < |fs| && 0 <= k < |users| && users[k].id == Other(fs[j], bySender)
      ensures exists i :: 0 <= i < |r| && r[i].row == fs[j]
    {
      assert ids[j] == users[k].id;
      assert users[k] in found;
      assert Other(fs[j], bySender) in m;
      var resp := FriendResponse(fs[j], m[Other(fs[j], bySender)]);
      assert resp in r;
      var i :| 0 <= i < |r| && r[i] == resp;
    }
  }

  /** Both checks look only at the FIRST row of a pair. Once a request has
      been rejected, the sender may send it again (a new pending row is
      appended), but that new row can never be accepted or rejected: the
      target's handling still finds the rejected row first. */
  lemma ResentRequestStaysPending(rows: seq<Friend>, sender: int, target: int, remark: string, id: int)
    requires sender != target
    requires FirstBetween(rows, sender, target).Some?
    requires FirstBetween(rows, sender, target).value.status == FriendStatusRejected
    ensures AddFriendError(true, sender, target, FirstBetween(rows, sender, target)) == None
    ensures var resent := rows + [Friend(id, sender, target, remark, FriendStatusPending)];
      HandleError(FirstBetween(resent, sender, target)) == Some("friend request already handled")
  {
    FirstBetweenAppend(rows, [Friend(id, sender, target, remark, FriendStatusPending)], sender, target);
  }

  /** The loop collecting each row's other user id. */
  method CollectOthers(fs: seq<Friend>, bySender: bool) returns (ids: seq<int>)
    ensures ids == Others(fs, bySender)
  {
    ids := [];
    var i := 0;
    while i < |fs|
      invariant 0 <= i <= |fs|
      invariant ids == Others(fs[..i], bySender)
    {
      ids := ids + [Other(fs[i], bySender)];
      i := i + 1;
    }
    assert fs[..|fs|] == fs;
  }

  /** The loop pairing each row with its indexed user, skipping rows whose
      user was not fetched. */
  method PairUp(fs: seq<Friend>, m: map<int, User>, bySender: bool) returns (result: seq<FriendResponse>)
    ensures result == Responses(fs, m, bySender)
  {
    result := [];
    var k := 0;
    while k < |fs|
      invariant 0 <= k <= |fs|
      invariant result == Responses(fs[..k], m, bySender)
    {
      assert fs[..k + 1][..k] == fs[..k];
      var f := fs[k];
      if Other(f, bySender) in m {
        result := result + [FriendResponse(f, m[Other(f, bySender)])];
      }
      k := k + 1;
    }
    assert fs[..|fs|] == fs;
  }

  class FriendServiceImpl {
    const friends: FriendRepo
    const users: UserRepo

    ghost predicate Valid()
      reads friends, users
    {
      friends.Valid() && users.Valid()
    }

    constructor (friends: FriendRepo, users: UserRepo)
      ensures this.friends == friends && this.users == users
    {
      this.friends := friends;
      this.users := users;
    }

    /** `AddFriend`: on success exactly one row `(caller → target, pending)`
        with the request's remark is appended. */
    method AddFriend(userID: int, req: AddFriendRequest) returns (err: Option<string>)
      requires Valid()
      modifies friends
      ensures Valid()
      ensures err == AddFriendError(users.GetByID(req.friendID).Some?, userID, req.friendID,
                                    old(friends.GetByUserAndFriend(userID, req.friendID)))
      ensures err.Some? ==> friends.rows == old(friends.rows)
      ensures err.None? ==>
        friends.rows == old(friends.rows) + [Friend(old(friends.nextID), userID, req.friendID, req.remark, FriendStatusPending)]
    {
      if users.GetByID(req.friendID).None? {
        return Some("friend not found");
      }
      if userID == req.friendID {
        return Some("cannot add yourself as friend");
      }
      var existing := friends.GetByUserAndFriend(userID, req.friendID);
      if existing.Some? {
        if existing.value.status == FriendStatusAccepted {
          return Some("already friends");
        }
        if existing.value.status == FriendStatusPending {
          return Some("friend request already sent");
        }
      }
      var _ := friends.Create(Friend(0, userID, req.friendID, req.remark, FriendStatusPending));
      err := None;
    }

    /** `HandleFriendRequest`: the first `(sender → caller)` row must be
        pending; accepting marks it accepted and appends the reverse accepted
        row, rejecting marks it rejected. No other row changes. */
    method HandleFriendRequest(userID: int, req: HandleFriendRequest) returns (err: Option<string>)
      requires Valid()
      modifies friends
      ensures Valid()
      ensures err == HandleError(old(friends.GetByUserAndFriend(req.friendID, userID)))
      ensures err.Some? ==> friends.rows == old(friends.rows)
      ensures err.None? ==>
        var request := old(friends.GetByUserAndFriend(req.friendID, userID)).value;
        var status := if req.accept then FriendStatusAccepted else FriendStatusRejected;
        |friends.rows| == |old(friends.rows)| + (if req.accept then 1 else 0)
        && (forall i :: 0 <= i < |old(friends.rows)| ==>
              friends.rows[i] == if old(friends.rows)[i].id == request.id
                                 then request.(status := status) else old(friends.rows)[i])
        && (req.accept ==>
              friends.rows[|old(friends.rows)|] == Friend(old(friends.nextID), userID, req.friendID, "", FriendStatusAccepted))
      ensures err.None? && req.accept ==>
        friends.IsFriend(userID, req.friendID) && friends.IsFriend(req.friendID, userID)
    {
      var found := friends.GetByUserAndFriend(req.friendID, userID);
      if found.None? {
        return Some("friend request not found");
      }
      var request := found.value;
      if request.status != FriendStatusPending {
        return Some("friend request already handled");
      }
      ghost var before := friends.rows;
      var status := FriendStatusRejected;
      if req.accept {
        status := FriendStatusAccepted;
        var _ := friends.Create(Friend(0, userID, req.friendID, "", FriendStatusAccepted));
      }
      friends.Update(request.(status := status));
      err := None;
      if req.accept {
        ghost var k :| 0 <= k < |before| && before[k] == request;
        assert friends.rows[k] == request.(status := status);
        assert friends.rows[|before|].id != request.id;
      }
    }

    /** `DeleteFriend`: removes the rows in both directions and nothing else. */
    method DeleteFriend(userID: int, friendID: int)
      requires Valid()
      modifies friends
      ensures Valid()
      ensures friends.rows == Filter(Filter(old(friends.rows), (f: Friend) => !Between(f, userID, friendID)),
                                     (f: Friend) => !Between(f, friendID, userID))
      ensures !friends.IsFriend(userID, friendID) && !friends.IsFriend(friendID, userID)
      ensures friends.GetByUserAndFriend(userID, friendID).None? && friends.GetByUserAndFriend(friendID, userID).None?
    {
      friends.DeleteByUserAndFriend(userID, friendID);
      ghost var mid := friends.rows;
      friends.DeleteByUserAndFriend(friendID, userID);
      forall i | 0 <= i < |friends.rows|
        ensures !Between(friends.rows[i], userID, friendID)
      {
        assert friends.rows[i] in mid;
      }
    }

    /** `GetFriendList`: the caller's accepted rows whose friend is a user,
        each with that user's record, in row order. */
    method GetFriendList(userID: int) returns (result: seq<FriendResponse>)
      requires Valid()
      ensures result == Listing(friends.GetFriendList(userID, FriendStatusAccepted), users.rows, false)
    {
      var fs := friends.GetFriendList(userID, FriendStatusAccepted);
      result := ListWithUsers(fs, false);
    }

    /** `GetFriendRequests`: the pending rows addressed to the caller whose
        sender is a user, each with the sender's record. */
    method GetFriendRequests(userID: int) returns (result: seq<FriendResponse>)
      requires Valid()
      ensures result == Listing(friends.GetFriendRequests(userID), users.rows, true)
    {
      var fs := friends.GetFriendRequests(userID);
      result := ListWithUsers(fs, true);
    }

    /** The three loops shared by both list functions: collect the ids, index
        the fetched users by id, and pair each row with its user. */
    method ListWithUsers(fs: seq<Friend>, bySender: bool) returns (result: seq<FriendResponse>)
      ensures result == Listing(fs, users.rows, bySender)
    {
      var ids := CollectOthers(fs, bySender);
      var found := users.GetByIDs(ids);
      var m := IndexUsers(found);
      result := PairUp(fs, m, bySender);
    }
  }
}
