/** Groups and their members (internal/service/group_service.go). Member
    roles: owner 3, admin 2, member 1; owners and admins manage a group.
    Errors are messages (`None` is success). */
module GroupService {
  import opened Wrappers
  import opened Models
  import opened Seqs
  import opened Requests
  import opened UserStore
  import opened GroupStore

  /** The roles allowed to update a group and to add or remove members. */
  predicate CanManage(role: int) {
    role == GroupRoleOwner || role == GroupRoleAdmin
  }

  /** `UpdateGroup`'s field merge: a non-empty request field replaces the
      stored one, an empty one keeps it; id and owner never change. */
  function MergeGroup(g: Group, req: UpdateGroupRequest): (r: Group)
    ensures r.id == g.id && r.ownerID == g.ownerID
    ensures r.name == (if req.name != "" then req.name else g.name)
    ensures r.avatar == (if req.avatar != "" then req.avatar else g.avatar)
    ensures r.description == (if req.description != "" then req.description else g.description)
  {
    g.(name := if req.name != "" then req.name else g.name,
       avatar := if req.avatar != "" then req.avatar else g.avatar,
       description := if req.description != "" then req.description else g.description)
  }

  /** Applying the same update twice is the same as once. */
  lemma MergeGroupIdempotent(g: Group, req: UpdateGroupRequest)
    ensures MergeGroup(MergeGroup(g, req), req) == MergeGroup(g, req)
  {
  }

  /** An all-empty update leaves the group as it was. */
  lemma MergeGroupEmpty(g: Group)
    ensures MergeGroup(g, UpdateGroupRequest("", "", "")) == g
  {
  }

  /** A validated update of a group that fits its columns still fits. */
  lemma MergeGroupFits(g: Group, req: UpdateGroupRequest)
    requires GroupFits(g) && ValidUpdateGroup(req)
    ensures GroupFits(MergeGroup(g, req))
  {
  }

  /** Whether a listed id gets a plain-member row from `CreateGroup`. */
  function NotOwner(ownerID: int): (p: int -> bool)
    ensures forall x :: p(x) <==> x != ownerID
  {
    (x: int) => x != ownerID
  }

  /** The plain-member rows `CreateGroup` adds for the listed ids, skipping
      the owner but not repeated ids, numbered from `first`. */
  function MemberRows(first: int, groupID: int, ownerID: int, ids: seq<int>): seq<GroupMember>
  {
    JoinRows(first, groupID, Filter(ids, NotOwner(ownerID)))
  }

  /** The rows `CreateGroup` adds are consecutively numbered plain-member
      rows of the group; none is for the owner, each is for a listed id,
      and every listed id other than the owner has one. */
  lemma MemberRowsCover(first: int, groupID: int, ownerID: int, ids: seq<int>)
    ensures var r := MemberRows(first, groupID, ownerID, ids);
      (forall i :: 0 <= i < |r| ==> r[i].id == first + i && r[i].groupID == groupID && r[i].role == GroupRoleMember)
      && (forall i :: 0 <= i < |r| ==> r[i].userID != ownerID && r[i].userID in ids)
      && (forall k :: 0 <= k < |ids| && ids[k] != ownerID ==> ids[k] in UserIDsOf(r))
  {
    var f := Filter(ids, NotOwner(ownerID));
    var r := MemberRows(first, groupID, ownerID, ids);
    forall k | 0 <= k < |ids| && ids[k] != ownerID
      ensures ids[k] in UserIDsOf(r)
    {
      var j :| 0 <= j < |f| && f[j] == ids[k];
      assert UserIDsOf(r)[j] == ids[k];
    }
  }

  /** Listing one more id adds at most one row, at the end. */
  lemma MemberRowsSnoc(first: int, groupID: int, ownerID: int, ids: seq<int>, x: int)
    ensures MemberRows(first, groupID, ownerID, ids + [x])
         == MemberRows(first, groupID, ownerID, ids)
            + (if x == ownerID then [] else [GroupMember(first + |MemberRows(first, groupID, ownerID, ids)|, groupID, x, GroupRoleMember)])
  {
    assert (ids + [x])[..|ids|] == ids;
    var f := Filter(ids, NotOwner(ownerID));
    assert Filter(ids + [x], NotOwner(ownerID)) == f + (if x == ownerID then [] else [x]);
    assert |MemberRows(first, groupID, ownerID, ids)| == |f|;
  }

  /** `CreateGroup` does not deduplicate: an id listed twice gets two rows. */
  lemma MemberRowsRepeat(first: int, groupID: int, ownerID: int, x: int)
    requires x != ownerID
    ensures MemberRows(first, groupID, ownerID, [x, x])
         == [GroupMember(first, groupID, x, GroupRoleMember), GroupMember(first + 1, groupID, x, GroupRoleMember)]
  {
    FilterAll([x, x], NotOwner(ownerID));
    var r := JoinRows(first, groupID, [x, x]);
    assert |r| == 2 && r[0] == GroupMember(first, groupID, x, GroupRoleMember) && r[1] == GroupMember(first + 1, groupID, x, GroupRoleMember);
  }

  /** Some row of `ms` puts `userID` in `groupID`. */
  predicate InGroup(ms: seq<GroupMember>, groupID: int, userID: int) {
    exists k :: 0 <= k < |ms| && MemberOf(ms[k], groupID, userID)
  }

  /** The ids `AddGroupMembers` actually adds, in order: those not already
      in the group, each once (the membership check sees earlier additions). */
  function Joiners(existing: seq<GroupMember>, groupID: int, ids: seq<int>): (js: seq<int>)
    ensures forall i :: 0 <= i < |js| ==> js[i] in ids && !InGroup(existing, groupID, js[i])
    ensures forall i, j :: 0 <= i < j < |js| ==> js[i] != js[j]
    ensures forall k :: 0 <= k < |ids| && !InGroup(existing, groupID, ids[k]) ==> ids[k] in js
    decreases |ids|
  {
    if ids == [] then []
    else
      var init := ids[..|ids| - 1];
      var x := ids[|ids| - 1];
      var rest := Joiners(existing, groupID, init);
      assert forall k :: 0 <= k < |init| ==> init[k] == ids[k];
      if InGroup(existing, groupID, x) || x in rest then rest else rest + [x]
  }

  /** Listing one more id adds it at the end unless it is already a member
      or already added. */
  lemma JoinersSnoc(existing: seq<GroupMember>, groupID: int, ids: seq<int>, x: int)
    ensures Joiners(existing, groupID, ids + [x])
         == var js := Joiners(existing, groupID, ids);
            if InGroup(existing, groupID, x) || x in js then js else js + [x]
  {
    assert (ids + [x])[..|ids|] == ids;
  }

  /** One plain-member row per joiner, numbered from `first`. */
  function JoinRows(first: int, groupID: int, js: seq<int>): (r: seq<GroupMember>)
    ensures |r| == |js|
    ensures forall i :: 0 <= i < |js| ==> r[i] == GroupMember(first + i, groupID, js[i], GroupRoleMember)
  {
    seq(|js|, i requires 0 <= i < |js| => GroupMember(first + i, groupID, js[i], GroupRoleMember))
  }

  lemma JoinRowsSnoc(first: int, groupID: int, js: seq<int>, x: int)
    ensures JoinRows(first, groupID, js + [x]) == JoinRows(first, groupID, js) + [GroupMember(first + |js|, groupID, x, GroupRoleMember)]
  {
  }

  /** A group member together with the member's user record. */
  datatype MemberResponse = MemberResponse(member: GroupMember, info: User)

  /** Each member whose user is in `m`, paired with that user, in row order. */
  function MemberResponses(ms: seq<GroupMember>, m: map<int, User>): (r: seq<MemberResponse>)
    ensures |r| <= |ms|
    ensures forall i :: 0 <= i < |r| ==> r[i].member in ms && r[i].member.userID in m && r[i].info == m[r[i].member.userID]
    ensures forall j :: 0 <= j < |ms| && ms[j].userID in m ==> MemberResponse(ms[j], m[ms[j].userID]) in r
    decreases |ms|
  {
    if ms == [] then []
    else
      var init := ms[..|ms| - 1];
      var x := ms[|ms| - 1];
      var rest := MemberResponses(init, m);
      assert forall i :: 0 <= i < |rest| ==> rest[i].member in init;
      assert forall j :: 0 <= j < |init| ==> init[j] == ms[j];
      rest + (if x.userID in m then [MemberResponse(x, m[x.userID])] else [])
  }

  function UserIDsOf(ms: seq<GroupMember>): (ids: seq<int>)
    ensures |ids| == |ms| && forall i :: 0 <= i < |ms| ==> ids[i] == ms[i].userID
  {
    seq(|ms|, i requires 0 <= i < |ms| => ms[i].userID)
  }

  /** What `GetGroupMembers` returns: every member row whose user exists,
      with that user, in row order; members without a user are dropped. */
  function MemberListing(ms: seq<GroupMember>, users: seq<User>): (r: seq<MemberResponse>)
    ensures |r| <= |ms|
    ensures forall i :: 0 <= i < |r| ==> r[i].member in ms && r[i].info in users && r[i].info.id == r[i].member.userID
    ensures forall j, k :: 0 <= j < |ms| && 0 <= k < |users| && users[k].id == ms[j].userID ==>
      exists i :: 0 <= i < |r| && r[i].member == ms[j]
  {
    var ids := UserIDsOf(ms);
    var found := Filter(users, (u: User) => u.id in ids);
    var m := UserIndex(found);
    var r := MemberResponses(ms, m);
    forall i | 0 <= i < |r|
      ensures r[i].info in users
    {
      assert m[r[i].member.userID] in found;
    }
    forall j, k | 0 <= j < |ms| && 0 <= k < |users| && users[k].id == ms[j].userID
      ensures exists i :: 0 <= i < |r| && r[i].member == ms[j]
    {
      assert ids[j] == users[k].id;
      assert users[k] in found;
      var resp := MemberResponse(ms[j], m[ms[j].userID]);
      assert resp in r;
      var i :| 0 <= i < |r| && r[i] == resp;
    }
    r
  }

  class GroupServiceImpl {
    const groups: GroupRepo
    const users: UserRepo

    ghost predicate Valid()
      reads groups, users
    {
      groups.Valid() && users.Valid()
    }

    constructor (groups: GroupRepo, users: UserRepo)
      ensures this.groups == groups && this.users == users
    {
      this.groups := groups;
      this.users := users;
    }

    /** `CreateGroup`: the group row, then the owner's row, then one plain
        member row per listed id other than the owner. */
    method CreateGroup(ownerID: int, req: CreateGroupRequest) returns (group: Group)
      requires Valid()
      modifies groups
      ensures Valid()
      ensures group == Group(old(groups.nextGroupID), req.name, req.avatar, ownerID, req.description)
      ensures groups.groups == old(groups.groups) + [group]
      ensures groups.members == old(groups.members)
        + [GroupMember(old(groups.nextMemberID), group.id, ownerID, GroupRoleOwner)]
        + MemberRows(old(groups.nextMemberID) + 1, group.id, ownerID, req.memberIDs)
    {
      group := groups.Create(Group(0, req.name, req.avatar, ownerID, req.description));
      var _ := groups.AddMember(GroupMember(0, group.id, ownerID, GroupRoleOwner));
      AddPlainMembers(group.id, ownerID, req.memberIDs);
    }

    /** The member loop of `CreateGroup`. */
    method AddPlainMembers(groupID: int, ownerID: int, ids: seq<int>)
      requires groups.Valid()
      modifies groups`members, groups`nextMemberID
      ensures groups.Valid()
      ensures groups.members == old(groups.members) + MemberRows(old(groups.nextMemberID), groupID, ownerID, ids)
      ensures groups.nextMemberID == old(groups.nextMemberID) + |MemberRows(old(groups.nextMemberID), groupID, ownerID, ids)|
    {
      ghost var base := groups.members;
      ghost var first := groups.nextMemberID;
      ghost var added: seq<GroupMember> := [];
      var i := 0;
      while i < |ids|
        invariant 0 <= i <= |ids|
        invariant groups.Valid()
        invariant added == MemberRows(first, groupID, ownerID, ids[..i])
        invariant groups.members == base + added
        invariant groups.nextMemberID == first + |added|
      {
        MemberRowsSnoc(first, groupID, ownerID, ids[..i], ids[i]);
        assert ids[..i + 1] == ids[..i] + [ids[i]];
        AddPlainMember(groupID, ownerID, ids[i]);
        added := MemberRows(first, groupID, ownerID, ids[..i + 1]);
        i := i + 1;
      }
      assert ids[..|ids|] == ids;
    }

    /** One step of that loop: a plain member row for anyone but the owner. */
    method AddPlainMember(groupID: int, ownerID: int, userID: int)
      requires groups.Valid()
      modifies groups`members, groups`nextMemberID
      ensures groups.Valid()
      ensures groups.members == old(groups.members)
        + (if userID == ownerID then [] else [GroupMember(old(groups.nextMemberID), groupID, userID, GroupRoleMember)])
      ensures groups.nextMemberID == old(groups.nextMemberID) + (if userID == ownerID then 0 else 1)
    {
      if userID != ownerID {
        var _ := groups.AddMember(GroupMember(0, groupID, userID, GroupRoleMember));
      }
    }

    /** `UpdateGroup`: the caller must be a member, an owner or admin, and the
        group must exist; then the merged group replaces the stored one. */
    method UpdateGroup(userID: int, groupID: int, req: UpdateGroupRequest) returns (res: Result<Group>)
      requires Valid()
      modifies groups
      ensures Valid() && groups.members == old(groups.members)
      ensures old(groups.GetMember(groupID, userID)).None? ==> res == Err("not group member")
      ensures old(groups.GetMember(groupID, userID)).Some? && !CanManage(old(groups.GetMember(groupID, userID)).value.role) ==>
        res == Err("no permission to update group")
      ensures res.Ok? <==>
        old(groups.GetMember(groupID, userID)).Some? && CanManage(old(groups.GetMember(groupID, userID)).value.role)
        && old(groups.GetByID(groupID)).Some?
      ensures (old(groups.GetMember(groupID, userID)).Some? && CanManage(old(groups.GetMember(groupID, userID)).value.role)
               && old(groups.GetByID(groupID)).None?) ==> res == Err("group not found")
      ensures res.Err? ==> groups.groups == old(groups.groups)
      ensures res.Ok? ==> res.value == MergeGroup(old(groups.GetByID(groupID)).value, req)
      ensures res.Ok? ==> |groups.groups| == |old(groups.groups)| && forall i :: 0 <= i < |groups.groups| ==>
        groups.groups[i] == if old(groups.groups)[i].id == groupID then res.value else old(groups.groups)[i]
    {
      var member := groups.GetMember(groupID, userID);
      if member.None? {
        return Err("not group member");
      }
      if !CanManage(member.value.role) {
        return Err("no permission to update group");
      }
      var found := groups.GetByID(groupID);
      if found.None? {
        return Err("group not found");
      }
      var merged := MergeGroup(found.value, req);
      groups.Update(merged);
      res := Ok(merged);
    }

    /** `DeleteGroup`: only the group's recorded owner may delete it; the
        member rows are left in place. */
    method DeleteGroup(userID: int, groupID: int) returns (err: Option<string>)
      requires Valid()
      modifies groups
      ensures Valid() && groups.members == old(groups.members)
      ensures old(groups.GetByID(groupID)).None? ==> err == Some("group not found")
      ensures old(groups.GetByID(groupID)).Some? && old(groups.GetByID(groupID)).value.ownerID != userID ==>
        err == Some("only group owner can delete group")
      ensures err.None? <==> old(groups.GetByID(groupID)).Some? && old(groups.GetByID(groupID)).value.ownerID == userID
      ensures err.Some? ==> groups.groups == old(groups.groups)
      ensures err.None? ==> groups.groups == Filter(old(groups.groups), (g: Group) => g.id != groupID)
    {
      var found := groups.GetByID(groupID);
      if found.None? {
        return Some("group not found");
      }
      if found.value.ownerID != userID {
        return Some("only group owner can delete group");
      }
      groups.Delete(groupID);
      err := None;
    }

    /** `AddGroupMembers`: an owner or admin adds each listed id that is not
        yet a member, once, as a plain member. */
    method AddGroupMembers(userID: int, groupID: int, req: AddGroupMemberRequest) returns (err: Option<string>)
      requires Valid()
      modifies groups
      ensures Valid() && groups.groups == old(groups.groups)
      ensures old(groups.GetMember(groupID, userID)).None? ==> err == Some("not group member")
      ensures old(groups.GetMember(groupID, userID)).Some? && !CanManage(old(groups.GetMember(groupID, userID)).value.role) ==>
        err == Some("no permission to add members")
      ensures err.None? <==>
        old(groups.GetMember(groupID, userID)).Some? && CanManage(old(groups.GetMember(groupID, userID)).value.role)
      ensures err.Some? ==> groups.members == old(groups.members)
      ensures err.None? ==>
        groups.members == old(groups.members) + JoinRows(old(groups.nextMemberID), groupID, Joiners(old(groups.members), groupID, req.userIDs))
      ensures err.None? ==> forall k :: 0 <= k < |req.userIDs| ==> groups.IsMember(groupID, req.userIDs[k])
    {
      var member := groups.GetMember(groupID, userID);
      if member.None? {
        return Some("not group member");
      }
      if !CanManage(member.value.role) {
        return Some("no permission to add members");
      }
      ghost var before, first := groups.members, groups.nextMemberID;
      AddJoiners(groupID, req.userIDs);
      JoinedAreMembers(before, first, groupID, req.userIDs);
      err := None;
    }

    /** The member loop of `AddGroupMembers`: each listed id that is not yet
        a member of the group, as seen by the membership check at that
        point, gets a plain-member row. */
    method AddJoiners(groupID: int, ids: seq<int>)
      requires groups.Valid()
      modifies groups`members, groups`nextMemberID
      ensures groups.Valid()
      ensures groups.members == old(groups.members) + JoinRows(old(groups.nextMemberID), groupID, Joiners(old(groups.members), groupID, ids))
    {
      ghost var before := groups.members;
      ghost var first := groups.nextMemberID;
      ghost var js: seq<int> := [];
      var i := 0;
      while i < |ids|
        invariant 0 <= i <= |ids|
        invariant groups.Valid()
        invariant js == Joiners(before, groupID, ids[..i])
        invariant groups.members == before + JoinRows(first, groupID, js)
        invariant groups.nextMemberID == first + |js|
      {
        assert ids[..i + 1] == ids[..i] + [ids[i]];
        if InGroup(groups.members, groupID, ids[i]) {
          JoinStepMember(before, first, groupID, ids[..i], ids[i]);
        } else {
          JoinStepNew(before, first, groupID, ids[..i], ids[i]);
          JoinRowsSnoc(first, groupID, js, ids[i]);
          js := js + [ids[i]];
        }
        JoinOne(groupID, ids[i]);
        i := i + 1;
      }
      assert ids[..|ids|] == ids;
    }

    /** One turn of the `AddGroupMembers` loop: adds `userID` as a plain
        member unless a row already puts it in the group. */
    method JoinOne(groupID: int, userID: int)
      requires groups.Valid()
      modifies groups`members, groups`nextMemberID
      ensures groups.Valid()
      ensures InGroup(old(groups.members), groupID, userID) ==>
        groups.members == old(groups.members) && groups.nextMemberID == old(groups.nextMemberID)
      ensures !InGroup(old(groups.members), groupID, userID) ==>
        groups.members == old(groups.members) + [GroupMember(old(groups.nextMemberID), groupID, userID, GroupRoleMember)]
        && groups.nextMemberID == old(groups.nextMemberID) + 1
    {
      if !groups.IsMember(groupID, userID) {
        var _ := groups.AddMember(GroupMember(0, groupID, userID, GroupRoleMember));
      }
    }

    /** `RemoveGroupMember`: an owner or admin removes a member whose (first)
        row is not the owner's. A missing target yields the store's
        not-found error. */
    method RemoveGroupMember(userID: int, groupID: int, memberID: int) returns (err: Option<string>)
      requires Valid()
      modifies groups
      ensures Valid() && groups.groups == old(groups.groups)
      ensures old(groups.GetMember(groupID, userID)).None? ==> err == Some("not group member")
      ensures old(groups.GetMember(groupID, userID)).Some? && !CanManage(old(groups.GetMember(groupID, userID)).value.role) ==>
        err == Some("no permission to remove members")
      ensures (old(groups.GetMember(groupID, userID)).Some? && CanManage(old(groups.GetMember(groupID, userID)).value.role)
               && old(groups.GetMember(groupID, memberID)).None?) ==> err == Some("record not found")
      ensures (old(groups.GetMember(groupID, userID)).Some? && CanManage(old(groups.GetMember(groupID, userID)).value.role)
               && old(groups.GetMember(groupID, memberID)).Some?
               && old(groups.GetMember(groupID, memberID)).value.role == GroupRoleOwner) ==>
        err == Some("cannot remove group owner")
      ensures err.None? <==>
        old(groups.GetMember(groupID, userID)).Some? && CanManage(old(groups.GetMember(groupID, userID)).value.role)
        && old(groups.GetMember(groupID, memberID)).Some? && old(groups.GetMember(groupID, memberID)).value.role != GroupRoleOwner
      ensures err.Some? ==> groups.members == old(groups.members)
      ensures err.None? ==> groups.members == Filter(old(groups.members), (m: GroupMember) => !MemberOf(m, groupID, memberID))
      ensures err.None? ==> !groups.IsMember(groupID, memberID)
    {
      var operator := groups.GetMember(groupID, userID);
      if operator.None? {
        return Some("not group member");
      }
      if !CanManage(operator.value.role) {
        return Some("no permission to remove members");
      }
      var target := groups.GetMember(groupID, memberID);
      if target.None? {
        return Some("record not found");
      }
      if target.value.role == GroupRoleOwner {
        return Some("cannot remove group owner");
      }
      groups.RemoveMember(groupID, memberID);
      err := None;
    }

    /** `LeaveGroup`: any member but the owner removes its own membership. */
    method LeaveGroup(userID: int, groupID: int) returns (err: Option<string>)
      requires Valid()
      modifies groups
      ensures Valid() && groups.groups == old(groups.groups)
      ensures old(groups.GetMember(groupID, userID)).None? ==> err == Some("not group member")
      ensures old(groups.GetMember(groupID, userID)).Some? && old(groups.GetMember(groupID, userID)).value.role == GroupRoleOwner ==>
        err == Some("group owner cannot leave, please transfer ownership first")
      ensures err.None? <==>
        old(groups.GetMember(groupID, userID)).Some? && old(groups.GetMember(groupID, userID)).value.role != GroupRoleOwner
      ensures err.Some? ==> groups.members == old(groups.members)
      ensures err.None? ==> groups.members == Filter(old(groups.members), (m: GroupMember) => !MemberOf(m, groupID, userID))
    {
      var member := groups.GetMember(groupID, userID);
      if member.None? {
        return Some("not group member");
      }
      if member.value.role == GroupRoleOwner {
        return Some("group owner cannot leave, please transfer ownership first");
      }
      groups.RemoveMember(groupID, userID);
      err := None;
    }

    /** `GetGroupMembers`: the group's members that have a user record, each
        with it, in row order. */
    method GetGroupMembers(groupID: int) returns (result: seq<MemberResponse>)
      ensures result == MemberListing(groups.GetMembers(groupID), users.rows)
    {
      var ms := groups.GetMembers(groupID);
      var ids := CollectUserIDs(ms);
      var found := users.GetByIDs(ids);
      var m := IndexUsers(found);
      result := PairWithUsers(ms, m);
    }
  }

  /** The `user_id` column of the member rows, in order. */
  method CollectUserIDs(ms: seq<GroupMember>) returns (ids: seq<int>)
    ensures ids == UserIDsOf(ms)
  {
    ids := [];
    var i := 0;
    while i < |ms|
      invariant 0 <= i <= |ms|
      invariant ids == UserIDsOf(ms[..i])
    {
      ids := ids + [ms[i].userID];
      i := i + 1;
    }
    assert ms[..|ms|] == ms;
  }

  /** Pairs each member row whose user is in `m` with that user. */
  method PairWithUsers(ms: seq<GroupMember>, m: map<int, User>) returns (result: seq<MemberResponse>)
    ensures result == MemberResponses(ms, m)
  {
    result := [];
    var k := 0;
    while k < |ms|
      invariant 0 <= k <= |ms|
      invariant result == MemberResponses(ms[..k], m)
    {
      assert ms[..k + 1][..k] == ms[..k];
      if ms[k].userID in m {
        result := result + [MemberResponse(ms[k], m[ms[k].userID])];
      }
      k := k + 1;
    }
    assert ms[..|ms|] == ms;
  }

  /** One step of the `AddGroupMembers` loop on an id that is already a
      member, before the loop or by an earlier step: nothing is added. */
  lemma JoinStepMember(before: seq<GroupMember>, first: int, groupID: int, prefix: seq<int>, x: int)
    requires InGroup(before + JoinRows(first, groupID, Joiners(before, groupID, prefix)), groupID, x)
    ensures Joiners(before, groupID, prefix + [x]) == Joiners(before, groupID, prefix)
  {
    JoinersSnoc(before, groupID, prefix, x);
    MembershipAfterJoin(before, first, groupID, Joiners(before, groupID, prefix), x);
  }

  /** One step of the `AddGroupMembers` loop on any other id: one row is
      added at the end. */
  lemma JoinStepNew(before: seq<GroupMember>, first: int, groupID: int, prefix: seq<int>, x: int)
    requires !InGroup(before + JoinRows(first, groupID, Joiners(before, groupID, prefix)), groupID, x)
    ensures Joiners(before, groupID, prefix + [x]) == Joiners(before, groupID, prefix) + [x]
  {
    JoinersSnoc(before, groupID, prefix, x);
    MembershipAfterJoin(before, first, groupID, Joiners(before, groupID, prefix), x);
  }

  /** After the loop every listed id is a member. */
  lemma JoinedAreMembers(before: seq<GroupMember>, first: int, groupID: int, ids: seq<int>)
    ensures forall k :: 0 <= k < |ids| ==>
      InGroup(before + JoinRows(first, groupID, Joiners(before, groupID, ids)), groupID, ids[k])
  {
    forall k | 0 <= k < |ids|
      ensures InGroup(before + JoinRows(first, groupID, Joiners(before, groupID, ids)), groupID, ids[k])
    {
      MembershipAfterJoin(before, first, groupID, Joiners(before, groupID, ids), ids[k]);
    }
  }

  /** After adding rows for `js`, a user is a member exactly when it was one
      before or is among `js`. */
  lemma MembershipAfterJoin(before: seq<GroupMember>, first: int, groupID: int, js: seq<int>, x: int)
    ensures InGroup(before + JoinRows(first, groupID, js), groupID, x) <==> InGroup(before, groupID, x) || x in js
  {
    var all := before + JoinRows(first, groupID, js);
    if x in js {
      var i :| 0 <= i < |js| && js[i] == x;
      assert MemberOf(all[|before| + i], groupID, x);
    }
    if InGroup(before, groupID, x) {
      var k :| 0 <= k < |before| && MemberOf(before[k], groupID, x);
      assert all[k] == before[k];
    }
    if InGroup(all, groupID, x) {
      var k :| 0 <= k < |all| && MemberOf(all[k], groupID, x);
      if k >= |before| {
        assert all[k] == JoinRows(first, groupID, js)[k - |before|];
        assert js[k - |before|] == x;
      } else {
        assert all[k] == before[k];
        assert MemberOf(before[k], groupID, x);
      }
    }
  }
}
