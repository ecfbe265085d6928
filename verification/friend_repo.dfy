/** The `friends` table and its repository (internal/repository/friend_repo.go).
    A row `(userID, friendID, status)` is directional: it says what `userID`
    holds about `friendID`. Rows are kept in id order, which the model takes
    as the order of a query without `ORDER BY` (SQL leaves it open). */
module FriendStore {
  import opened Wrappers
  import opened Models
  import opened Seqs

  predicate Between(r: Friend, userID: int, friendID: int) {
    r.userID == userID && r.friendID == friendID
  }

  /** The first `(userID, friendID)` row in table order. */
  function FirstBetween(rows: seq<Friend>, userID: int, friendID: int): (r: Option<Friend>)
    ensures r.Some? ==> r.value in rows && Between(r.value, userID, friendID)
    ensures r.Some? ==>
      exists k :: 0 <= k < |rows| && rows[k] == r.value && forall j :: 0 <= j < k ==> !Between(rows[j], userID, friendID)
    ensures r.None? <==> forall i :: 0 <= i < |rows| ==> !Between(rows[i], userID, friendID)
  {
    match FirstIndex(rows, (f: Friend) => Between(f, userID, friendID))
    case None => None
    case Some(k) => Some(rows[k])
  }

  /** Appending rows never changes which row is first for a pair that
      already has one. */
  lemma FirstBetweenAppend(rows: seq<Friend>, extra: seq<Friend>, userID: int, friendID: int)
    requires FirstBetween(rows, userID, friendID).Some?
    ensures FirstBetween(rows + extra, userID, friendID) == FirstBetween(rows, userID, friendID)
  {
    FirstIndexAppend(rows, extra, (f: Friend) => Between(f, userID, friendID));
  }

  class FriendRepo {
    var rows: seq<Friend>
    var nextID: int

    ghost predicate Valid()
      reads this
    {
      nextID >= 1
      && (forall i :: 0 <= i < |rows| ==> 1 <= rows[i].id < nextID)
      && (forall i, j :: 0 <= i < j < |rows| ==> rows[i].id < rows[j].id)
    }

    constructor ()
      ensures Valid() && rows == [] && nextID == 1
    {
      rows := [];
      nextID := 1;
    }

    /** `Create`: appends `f` under the next id. */
    method Create(f: Friend) returns (row: Friend)
      requires Valid()
      modifies this
      ensures Valid() && nextID == old(nextID) + 1
      ensures row == f.(id := old(nextID)) && rows == old(rows) + [row]
    {
      row := f.(id := nextID);
      rows := rows + [row];
      nextID := nextID + 1;
    }

    /** `Update` (`Save` of a fetched row): the row with `f`'s id becomes `f`. */
    method Update(f: Friend)
      requires Valid()
      modifies this`rows
      ensures Valid()
      ensures |rows| == |old(rows)|
      ensures forall i :: 0 <= i < |rows| ==> rows[i] == if old(rows)[i].id == f.id then f else old(rows)[i]
    {
      rows := UpdateWhere(rows, (r: Friend) => r.id == f.id, (r: Friend) => f);
    }

    /** `GetByUserAndFriend`: the first `(userID, friendID)` row, or not found. */
    function GetByUserAndFriend(userID: int, friendID: int): (r: Option<Friend>)
      reads this
      ensures r.Some? ==> r.value in rows && Between(r.value, userID, friendID)
      ensures r.Some? ==>
        exists k :: 0 <= k < |rows| && rows[k] == r.value && forall j :: 0 <= j < k ==> !Between(rows[j], userID, friendID)
      ensures r.None? <==> forall i :: 0 <= i < |rows| ==> !Between(rows[i], userID, friendID)
    {
      FirstBetween(rows, userID, friendID)
    }

    /** `DeleteByUserAndFriend`: removes every `(userID, friendID)` row and
        nothing else. */
    method DeleteByUserAndFriend(userID: int, friendID: int)
      requires Valid()
      modifies this`rows
      ensures Valid()
      ensures rows == Filter(old(rows), (f: Friend) => !Between(f, userID, friendID))
      ensures forall i :: 0 <= i < |rows| ==> !Between(rows[i], userID, friendID)
    {
      FilterPairwise(rows, (f: Friend) => !Between(f, userID, friendID), (a: Friend, b: Friend) => a.id < b.id);
      rows := Filter(rows, (f: Friend) => !Between(f, userID, friendID));
    }

    /** The WHERE clause of `GetFriendList`: rows owned by `userID`, with
        `status` when it is not negative. */
    static predicate Outgoing(f: Friend, userID: int, status: int) {
      f.userID == userID && (status < 0 || f.status == status)
    }

    /** `GetFriendList`: `userID`'s rows, restricted to one status unless the
        status argument is negative. */
    function GetFriendList(userID: int, status: int): (r: seq<Friend>)
      reads this
      ensures forall i :: 0 <= i < |r| ==> r[i] in rows && r[i].userID == userID && (status < 0 || r[i].status == status)
      ensures forall i :: 0 <= i < |rows| && Outgoing(rows[i], userID, status) ==> rows[i] in r
      ensures multiset(r) <= multiset(rows)
      ensures forall i :: 0 <= i < |rows| && Outgoing(rows[i], userID, status) ==> multiset(r)[rows[i]] == multiset(rows)[rows[i]]
    {
      var p := (f: Friend) => Outgoing(f, userID, status);
      var r := Filter(rows, p);
      assert multiset(r) <= multiset(rows) && forall i :: 0 <= i < |rows| && p(rows[i]) ==> multiset(r)[rows[i]] == multiset(rows)[rows[i]] by {
        FilterMultiset(rows, p);
      }
      r
    }

    /** `GetFriendRequests`: the pending rows addressed to `userID`. */
    function GetFriendRequests(userID: int): (r: seq<Friend>)
      reads this
      ensures forall i :: 0 <= i < |r| ==> r[i] in rows && r[i].friendID == userID && r[i].status == FriendStatusPending
      ensures forall i :: 0 <= i < |rows| && rows[i].friendID == userID && rows[i].status == FriendStatusPending ==>
        rows[i] in r
      ensures multiset(r) <= multiset(rows)
      ensures forall i :: 0 <= i < |rows| && rows[i].friendID == userID && rows[i].status == FriendStatusPending ==> multiset(r)[rows[i]] == multiset(rows)[rows[i]]
    {
      var p := (f: Friend) => f.friendID == userID && f.status == FriendStatusPending;
      FilterMultiset(rows, p);
      Filter(rows, p)
    }

    /** `GetFriendIDs`: the `friend_id` of each accepted row owned by `userID`,
        one entry per row, so a duplicated accepted row repeats its id. */
    function GetFriendIDs(userID: int): (ids: seq<int>)
      reads this
      ensures |ids| == |GetFriendList(userID, FriendStatusAccepted)|
      ensures forall i :: 0 <= i < |ids| ==> ids[i] == GetFriendList(userID, FriendStatusAccepted)[i].friendID
      ensures forall k :: k in ids <==>
        exists i :: 0 <= i < |rows| && rows[i].userID == userID && rows[i].friendID == k && rows[i].status == FriendStatusAccepted
    {
      var accepted := GetFriendList(userID, FriendStatusAccepted);
      var ids := seq(|accepted|, i requires 0 <= i < |accepted| => accepted[i].friendID);
      assert forall i :: 0 <= i < |accepted| ==> ids[i] == accepted[i].friendID && accepted[i] in rows;
      ids
    }

    /** `IsFriend`: a positive count of accepted `(userID, friendID)` rows. */
    function IsFriend(userID: int, friendID: int): (b: bool)
      reads this
      ensures b <==> exists i :: 0 <= i < |rows| && Between(rows[i], userID, friendID) && rows[i].status == FriendStatusAccepted
    {
      Count(rows, (f: Friend) => Between(f, userID, friendID) && f.status == FriendStatusAccepted) > 0
    }

    /** The two friendship queries agree: `IsFriend(u, f)` iff `f` is among
        `u`'s friend ids. */
    lemma IsFriendIffListed(userID: int, friendID: int)
      ensures IsFriend(userID, friendID) <==> friendID in GetFriendIDs(userID)
    {
    }
  }
}
