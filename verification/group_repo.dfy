/** The `groups` and `group_members` tables and their repository
    (internal/repository/group_repo.go). Both tables are kept in id order;
    nothing ties a member row to an existing group row. */
module GroupStore {
  import opened Wrappers
  import opened Models
  import opened Seqs

  predicate MemberOf(m: GroupMember, groupID: int, userID: int) {
    m.groupID == groupID && m.userID == userID
  }

  /** How many member rows put `userID` in `groupID`. */
  function Memberships(ms: seq<GroupMember>, groupID: int, userID: int): (n: nat)
    ensures n > 0 <==> exists k :: 0 <= k < |ms| && MemberOf(ms[k], groupID, userID)
  {
    Count(ms, (m: GroupMember) => MemberOf(m, groupID, userID))
  }

  /** `n` copies of `g`. */
  function Copies(g: Group, n: nat): (r: seq<Group>)
    ensures |r| == n && forall i :: 0 <= i < n ==> r[i] == g
  {
    seq(n, _ => g)
  }

  /** Each group of `gs` repeated `times(g)` times, in group order. */
  function Repeated(gs: seq<Group>, times: Group -> nat): seq<Group>
    decreases |gs|
  {
    if gs == [] then []
    else Repeated(gs[..|gs| - 1], times) + Copies(gs[|gs| - 1], times(gs[|gs| - 1]))
  }

  lemma {:induction false} RepeatedSound(gs: seq<Group>, times: Group -> nat)
    ensures forall i :: 0 <= i < |Repeated(gs, times)| ==>
      Repeated(gs, times)[i] in gs && times(Repeated(gs, times)[i]) > 0
    decreases |gs|
  {
    if gs != [] {
      var init := gs[..|gs| - 1];
      var g := gs[|gs| - 1];
      RepeatedSound(init, times);
      var rest := Repeated(init, times);
      var copies := Copies(g, times(g));
      var r := rest + copies;
      forall i | 0 <= i < |r|
        ensures r[i] in gs && times(r[i]) > 0
      {
        if i < |rest| {
          assert r[i] == rest[i] && rest[i] in init;
        } else {
          assert r[i] == copies[i - |rest|] == g;
        }
      }
    }
  }

  lemma {:induction false} RepeatedComplete(gs: seq<Group>, times: Group -> nat)
    ensures forall i :: 0 <= i < |gs| && times(gs[i]) > 0 ==> gs[i] in Repeated(gs, times)
    decreases |gs|
  {
    if gs != [] {
      var init := gs[..|gs| - 1];
      var g := gs[|gs| - 1];
      RepeatedComplete(init, times);
      var rest := Repeated(init, times);
      var copies := Copies(g, times(g));
      var r := rest + copies;
      forall i | 0 <= i < |gs| && times(gs[i]) > 0
        ensures gs[i] in r
      {
        if i < |init| {
          assert init[i] == gs[i] && gs[i] in rest;
        } else {
          assert r[|rest|] == copies[0] == g;
        }
      }
    }
  }

  /** `n` copies of `x` hold `x` exactly `n` times and nothing else. */
  lemma {:induction false} CopiesMultiset(x: Group, n: nat, g: Group)
    ensures multiset(Copies(x, n))[g] == if g == x then n else 0
    decreases n
  {
    if n > 0 {
      CopiesMultiset(x, n - 1, g);
      assert Copies(x, n) == Copies(x, n - 1) + [x];
    }
  }

  /** Each group occurs `times(g)` times per occurrence in `gs`. */
  lemma {:induction false} RepeatedMultiplicity(gs: seq<Group>, times: Group -> nat, g: Group)
    ensures multiset(Repeated(gs, times))[g] == multiset(gs)[g] * times(g)
    decreases |gs|
  {
    if gs != [] {
      var init := gs[..|gs| - 1];
      var x := gs[|gs| - 1];
      assert gs == init + [x];
      assert multiset(gs) == multiset(init) + multiset{x};
      RepeatedMultiplicity(init, times, g);
      CopiesMultiset(x, times(x), g);
      var rest := Repeated(init, times);
      assert multiset(Repeated(gs, times)) == multiset(rest) + multiset(Copies(x, times(x)));
      if g == x {
        OneMore(multiset(init)[g], times(g));
      }
    }
  }

  lemma OneMore(k: nat, t: nat)
    ensures (k + 1) * t == k * t + t
  {
  }

  /** In a table with increasing ids every row occurs exactly once. */
  lemma {:induction false} IncreasingOnce(gs: seq<Group>, i: int)
    requires 0 <= i < |gs|
    requires forall a, b :: 0 <= a < b < |gs| ==> gs[a].id < gs[b].id
    ensures multiset(gs)[gs[i]] == 1
    decreases |gs|
  {
    var init := gs[..|gs| - 1];
    var x := gs[|gs| - 1];
    assert gs == init + [x];
    if i == |gs| - 1 {
      forall j | 0 <= j < |init|
        ensures init[j] != x
      {
        assert gs[j].id < gs[|gs| - 1].id;
      }
      assert x !in init;
    } else {
      IncreasingOnce(init, i);
      assert init[i] == gs[i] && gs[i].id < x.id;
    }
  }

  /** The `role` column as GORM inserts it: the field's zero value is
      replaced by the column default `1`, a plain member; any other role is
      stored as given. */
  function StoredRole(role: int): (stored: int)
    ensures stored != 0
    ensures role == 0 ==> stored == GroupRoleMember
    ensures role != 0 ==> stored == role
  {
    if role == 0 then GroupRoleMember else role
  }

  /** The user's number of member rows in each group. */
  function MembershipsOf(ms: seq<GroupMember>, userID: int): Group -> nat {
    (g: Group) => Memberships(ms, g.id, userID)
  }

  /** `groups JOIN group_members ON groups.id = group_members.group_id WHERE
      group_members.user_id = userID`: each group once per matching member
      row. The model lists them in group order, one order SQL allows. */
  function JoinGroups(gs: seq<Group>, ms: seq<GroupMember>, userID: int): (r: seq<Group>)
    ensures forall i :: 0 <= i < |r| ==> r[i] in gs && Memberships(ms, r[i].id, userID) > 0
    ensures forall i :: 0 <= i < |gs| && Memberships(ms, gs[i].id, userID) > 0 ==> gs[i] in r
    ensures forall g :: multiset(r)[g] == multiset(gs)[g] * Memberships(ms, g.id, userID)
  {
    RepeatedSound(gs, MembershipsOf(ms, userID));
    RepeatedComplete(gs, MembershipsOf(ms, userID));
    forall g
      ensures multiset(Repeated(gs, MembershipsOf(ms, userID)))[g] == multiset(gs)[g] * Memberships(ms, g.id, userID)
    {
      RepeatedMultiplicity(gs, MembershipsOf(ms, userID), g);
    }
    Repeated(gs, MembershipsOf(ms, userID))
  }

  class GroupRepo {
    var groups: seq<Group>
    var members: seq<GroupMember>
    var nextGroupID: int
    var nextMemberID: int

    ghost predicate Valid()
      reads this
    {
      nextGroupID >= 1 && nextMemberID >= 1
      && (forall i :: 0 <= i < |groups| ==> 1 <= groups[i].id < nextGroupID)
      && (forall i, j :: 0 <= i < j < |groups| ==> groups[i].id < groups[j].id)
      && (forall i :: 0 <= i < |members| ==> 1 <= members[i].id < nextMemberID)
      && (forall i, j :: 0 <= i < j < |members| ==> members[i].id < members[j].id)
    }

    constructor ()
      ensures Valid() && groups == [] && members == []
      ensures nextGroupID == 1 && nextMemberID == 1
    {
      groups, members := [], [];
      nextGroupID, nextMemberID := 1, 1;
    }

    /** `Create`: appends `g` under the next group id. */
    method Create(g: Group) returns (row: Group)
      requires Valid()
      modifies this`groups, this`nextGroupID
      ensures Valid() && nextGroupID == old(nextGroupID) + 1
      ensures row == g.(id := old(nextGroupID)) && groups == old(groups) + [row]
    {
      row := g.(id := nextGroupID);
      groups := groups + [row];
      nextGroupID := nextGroupID + 1;
    }

    function GetByID(id: int): (r: Option<Group>)
      reads this
      ensures r.Some? ==> r.value in groups && r.value.id == id
      ensures r.None? <==> forall i :: 0 <= i < |groups| ==> groups[i].id != id
    {
      First(groups, (g: Group) => g.id == id)
    }

    /** `Update` (`Save` of a fetched row): the group with `g`'s id becomes `g`. */
    method Update(g: Group)
      requires Valid()
      modifies this`groups
      ensures Valid()
      ensures |groups| == |old(groups)|
      ensures forall i :: 0 <= i < |groups| ==> groups[i] == if old(groups)[i].id == g.id then g else old(groups)[i]
    {
      groups := UpdateWhere(groups, (r: Group) => r.id == g.id, (r: Group) => g);
    }

    /** `Delete`: removes the group row only; its member rows stay. */
    method Delete(id: int)
      requires Valid()
      modifies this`groups
      ensures Valid()
      ensures groups == Filter(old(groups), (g: Group) => g.id != id)
      ensures forall i :: 0 <= i < |groups| ==> groups[i].id != id
    {
      FilterPairwise(groups, (g: Group) => g.id != id, (a: Group, b: Group) => a.id < b.id);
      groups := Filter(groups, (g: Group) => g.id != id);
    }

    /** `AddMember`: appends `m` under the next member id, even when the
        same (group, user) pair is already present. A zero role is stored
        as the column default. */
    method AddMember(m: GroupMember) returns (row: GroupMember)
      requires Valid()
      modifies this`members, this`nextMemberID
      ensures Valid() && nextMemberID == old(nextMemberID) + 1
      ensures row == GroupMember(old(nextMemberID), m.groupID, m.userID, StoredRole(m.role)) && members == old(members) + [row]
    {
      row := GroupMember(nextMemberID, m.groupID, m.userID, StoredRole(m.role));
      members := members + [row];
      nextMemberID := nextMemberID + 1;
    }

    /** `RemoveMember`: deletes every (group, user) row and nothing else. */
    method RemoveMember(groupID: int, userID: int)
      requires Valid()
      modifies this`members
      ensures Valid()
      ensures members == Filter(old(members), (m: GroupMember) => !MemberOf(m, groupID, userID))
      ensures forall i :: 0 <= i < |members| ==> !MemberOf(members[i], groupID, userID)
    {
      FilterPairwise(members, (m: GroupMember) => !MemberOf(m, groupID, userID),
        (a: GroupMember, b: GroupMember) => a.id < b.id);
      members := Filter(members, (m: GroupMember) => !MemberOf(m, groupID, userID));
    }

    /** `GetMember`: the first (group, user) row, or not found. */
    function GetMember(groupID: int, userID: int): (r: Option<GroupMember>)
      reads this
      ensures r.Some? ==> r.value in members && MemberOf(r.value, groupID, userID)
      ensures r.None? <==> forall i :: 0 <= i < |members| ==> !MemberOf(members[i], groupID, userID)
    {
      First(members, (m: GroupMember) => MemberOf(m, groupID, userID))
    }

    /** `GetMembers`: the group's member rows in id order. */
    function GetMembers(groupID: int): (r: seq<GroupMember>)
      reads this
      ensures forall i :: 0 <= i < |r| ==> r[i] in members && r[i].groupID == groupID
      ensures forall i :: 0 <= i < |members| && members[i].groupID == groupID ==> members[i] in r
      ensures multiset(r) <= multiset(members)
      ensures forall i :: 0 <= i < |members| && members[i].groupID == groupID ==> multiset(r)[members[i]] == multiset(members)[members[i]]
    {
      var p := (m: GroupMember) => m.groupID == groupID;
      FilterMultiset(members, p);
      Filter(members, p)
    }

    /** `GetMemberIDs`: the `user_id` of every member row of the group, one
        per row, so a duplicated membership repeats its id. */
    function GetMemberIDs(groupID: int): (ids: seq<int>)
      reads this
      ensures |ids| == GetMemberCount(groupID) && |ids| == |GetMembers(groupID)|
      ensures forall i :: 0 <= i < |ids| ==> ids[i] == GetMembers(groupID)[i].userID
      ensures forall u :: u in ids <==> exists i :: 0 <= i < |members| && MemberOf(members[i], groupID, u)
    {
      var ms := GetMembers(groupID);
      var ids := seq(|ms|, i requires 0 <= i < |ms| => ms[i].userID);
      assert forall i :: 0 <= i < |ms| ==> ids[i] == ms[i].userID && ms[i] in members;
      ids
    }

    /** `IsMember`: a positive count of (group, user) rows. */
    function IsMember(groupID: int, userID: int): (b: bool)
      reads this
      ensures b <==> exists i :: 0 <= i < |members| && MemberOf(members[i], groupID, userID)
    {
      Memberships(members, groupID, userID) > 0
    }

    /** `UpdateMemberRole`: sets the role of every (group, user) row; every
        other row, and every other column, is unchanged. */
    method UpdateMemberRole(groupID: int, userID: int, role: int)
      requires Valid()
      modifies this`members
      ensures Valid()
      ensures |members| == |old(members)|
      ensures forall i :: 0 <= i < |members| ==>
        members[i] == if MemberOf(old(members)[i], groupID, userID) then old(members)[i].(role := role) else old(members)[i]
    {
      members := UpdateWhere(members, (m: GroupMember) => MemberOf(m, groupID, userID),
        (m: GroupMember) => m.(role := role));
    }

    /** `GetMemberCount`: the number of member rows of the group. */
    function GetMemberCount(groupID: int): (n: nat)
      reads this
      ensures n == |GetMembers(groupID)|
      ensures n > 0 <==> exists i :: 0 <= i < |members| && members[i].groupID == groupID
    {
      Count(members, (m: GroupMember) => m.groupID == groupID)
    }

    /** `GetUserGroups`: the groups joined with the user's membership rows. */
    function GetUserGroups(userID: int): (r: seq<Group>)
      reads this
      ensures forall i :: 0 <= i < |r| ==> r[i] in groups && IsMember(r[i].id, userID)
      ensures forall i :: 0 <= i < |groups| && IsMember(groups[i].id, userID) ==> groups[i] in r
      ensures forall g :: multiset(r)[g] == multiset(groups)[g] * Memberships(members, g.id, userID)
    {
      JoinGroups(groups, members, userID)
    }

    /** In a valid table, each group comes back once per membership row of
        the user in it: a duplicated membership row duplicates the group. */
    lemma GetUserGroupsMultiplicity(userID: int, i: int)
      requires Valid() && 0 <= i < |groups|
      ensures multiset(GetUserGroups(userID))[groups[i]] == Memberships(members, groups[i].id, userID)
    {
      IncreasingOnce(groups, i);
    }
  }

  /** `IsMember` and `GetMember` agree on whether a membership exists. */
  lemma IsMemberIffGetMember(repo: GroupRepo, groupID: int, userID: int)
    ensures repo.IsMember(groupID, userID) <==> repo.GetMember(groupID, userID).Some?
  {
  }
}
