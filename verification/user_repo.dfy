/** The `users` table and its repository (internal/repository/user_repo.go).
    Rows are kept in primary-key order. An unordered `Find` may return its
    rows in any order; the model fixes this one. Ids come from an
    auto-increment counter; the unique index
    on `username` makes a clashing insert or save fail. */
module UserStore {
  import opened Wrappers
  import opened Models
  import opened Seqs
  import opened Strs
  import opened SqlLike

  /** The keyword patterns of `Search`, on either column. */
  predicate SearchHit(u: User, keyword: string) {
    Like(u.username, ContainsPattern(keyword)) || Like(u.nickname, ContainsPattern(keyword))
  }

  /** The id-to-user map the list functions build; a later row with the
      same id would win, as map assignment in a loop does. */
  function UserIndex(us: seq<User>): (m: map<int, User>)
    ensures forall k :: k in m <==> exists i :: 0 <= i < |us| && us[i].id == k
    ensures forall k :: k in m ==> m[k].id == k && m[k] in us
    decreases |us|
  {
    if us == [] then map[]
    else
      var m' := UserIndex(us[..|us| - 1]);
      var u := us[|us| - 1];
      assert forall k :: k in m' ==> m'[k] in us[..|us| - 1];
      m'[u.id := u]
  }

  /** The loop that builds that map from fetched users. */
  method IndexUsers(us: seq<User>) returns (m: map<int, User>)
    ensures m == UserIndex(us)
  {
    m := map[];
    var j := 0;
    while j < |us|
      invariant 0 <= j <= |us|
      invariant m == UserIndex(us[..j])
    {
      assert us[..j + 1][..j] == us[..j];
      m := m[us[j].id := us[j]];
      j := j + 1;
    }
    assert us[..|us|] == us;
  }

  class UserRepo {
    var rows: seq<User>
    var nextID: int

    ghost predicate Valid()
      reads this
    {
      nextID >= 1
      && (forall i :: 0 <= i < |rows| ==> 1 <= rows[i].id < nextID)
      && (forall i, j :: 0 <= i < j < |rows| ==> rows[i].id < rows[j].id && rows[i].username != rows[j].username)
    }

    constructor ()
      ensures Valid() && rows == [] && nextID == 1
    {
      rows := [];
      nextID := 1;
    }

    /** Some row has this user name. */
    predicate Taken(username: string)
      reads this
    {
      exists i :: 0 <= i < |rows| && rows[i].username == username
    }

    /** `Create`: inserts `u` under the next id, unless the user name is taken
        (the unique index rejects it; the id is consumed either way). */
    method Create(u: User) returns (created: Option<User>)
      requires Valid()
      modifies this
      ensures Valid() && nextID == old(nextID) + 1
      ensures created.None? <==> old(Taken(u.username))
      ensures created.None? ==> rows == old(rows)
      ensures created.Some? ==> created.value == u.(id := old(nextID)) && rows == old(rows) + [created.value]
    {
      if exists i :: 0 <= i < |rows| && rows[i].username == u.username {
        created := None;
      } else {
        var row := u.(id := nextID);
        rows := rows + [row];
        created := Some(row);
      }
      nextID := nextID + 1;
    }

    /** `GetByID`: the row with that id, or not found. */
    function GetByID(id: int): (r: Option<User>)
      reads this
      ensures r.Some? ==> r.value in rows && r.value.id == id
      ensures r.None? <==> forall i :: 0 <= i < |rows| ==> rows[i].id != id
    {
      First(rows, (u: User) => u.id == id)
    }

    /** `GetByUsername`: the first row with exactly that user name, or not found. */
    function GetByUsername(username: string): (r: Option<User>)
      reads this
      ensures r.Some? ==> r.value in rows && r.value.username == username
      ensures r.None? <==> !Taken(username)
    {
      First(rows, (u: User) => u.username == username)
    }

    /** `Update` (`Save` of a fetched row): the row with `u`'s id becomes `u`;
        a save that would duplicate another row's user name fails. */
    method Update(u: User) returns (ok: bool)
      requires Valid()
      modifies this`rows
      ensures Valid()
      ensures ok <==> forall i :: 0 <= i < |old(rows)| && old(rows)[i].id != u.id ==> old(rows)[i].username != u.username
      ensures !ok ==> rows == old(rows)
      ensures ok ==> |rows| == |old(rows)|
      ensures ok ==> forall i :: 0 <= i < |rows| ==>
        rows[i] == if old(rows)[i].id == u.id then u else old(rows)[i]
    {
      ok := forall i :: 0 <= i < |rows| && rows[i].id != u.id ==> rows[i].username != u.username;
      if ok {
        rows := UpdateWhere(rows, (r: User) => r.id == u.id, (r: User) => u);
      }
    }

    /** `Delete`: removes the row with that id. */
    method Delete(id: int)
      requires Valid()
      modifies this`rows
      ensures Valid()
      ensures rows == Filter(old(rows), (r: User) => r.id != id)
      ensures forall i :: 0 <= i < |rows| ==> rows[i].id != id
    {
      FilterPairwise(rows, (r: User) => r.id != id,
        (a: User, b: User) => a.id < b.id && a.username != b.username);
      rows := Filter(rows, (r: User) => r.id != id);
    }

    /** `List`: OFFSET/LIMIT over the whole table in id order. */
    function List(offset: int, limit: int): (r: seq<User>)
      reads this
      ensures |r| == PageLength(|rows|, offset, limit)
      ensures limit >= 0 ==> |r| <= limit
      ensures |r| <= |rows| - Skipped(|rows|, offset)
      ensures forall i :: 0 <= i < |r| ==> r[i] == rows[Skipped(|rows|, offset) + i]
      ensures limit < 0 ==> |r| == |rows| - Skipped(|rows|, offset)
    {
      Page(rows, offset, limit)
    }

    /** The rows `Search` pages over: those matching the keyword pattern on
        user name or nickname, in id order. */
    function SearchMatches(keyword: string): (r: seq<User>)
      reads this
      ensures forall i :: 0 <= i < |r| ==> r[i] in rows && SearchHit(r[i], keyword)
      ensures forall i :: 0 <= i < |rows| && SearchHit(rows[i], keyword) ==> rows[i] in r
      ensures multiset(r) <= multiset(rows)
      ensures forall i :: 0 <= i < |rows| && SearchHit(rows[i], keyword) ==> multiset(r)[rows[i]] == multiset(rows)[rows[i]]
    {
      var p := (u: User) => SearchHit(u, keyword);
      FilterMultiset(rows, p);
      Filter(rows, p)
    }

    /** `Search`: `username LIKE %k% OR nickname LIKE %k%`, then OFFSET/LIMIT. */
    function Search(keyword: string, offset: int, limit: int): (r: seq<User>)
      reads this
      ensures |r| == PageLength(|SearchMatches(keyword)|, offset, limit)
      ensures forall i :: 0 <= i < |r| ==>
        r[i] == SearchMatches(keyword)[Skipped(|SearchMatches(keyword)|, offset) + i]
      ensures limit >= 0 ==> |r| <= limit
      ensures forall i :: 0 <= i < |r| ==> r[i] in rows && SearchHit(r[i], keyword)
    {
      var m := SearchMatches(keyword);
      var r := Page(m, offset, limit);
      assert forall i :: 0 <= i < |r| ==> r[i] in m;
      r
    }

    /** `GetByIDs`: the rows whose id is listed, in id order (none for an
        empty list). */
    function GetByIDs(ids: seq<int>): (r: seq<User>)
      reads this
      ensures forall i :: 0 <= i < |r| ==> r[i] in rows && r[i].id in ids
      ensures forall i :: 0 <= i < |rows| && rows[i].id in ids ==> rows[i] in r
      ensures ids == [] ==> r == []
      ensures multiset(r) <= multiset(rows)
      ensures forall i :: 0 <= i < |rows| && rows[i].id in ids ==> multiset(r)[rows[i]] == multiset(rows)[rows[i]]
    {
      var p := (u: User) => u.id in ids;
      FilterMultiset(rows, p);
      var r := Filter(rows, p);
      assert |r| > 0 ==> r[0].id in ids;
      r
    }

    /** For a keyword with no LIKE wildcard, a search hit is exactly a
        substring match on user name or nickname. */
    lemma SearchIsSubstring(keyword: string, u: User)
      requires NoWildcards(keyword)
      ensures SearchHit(u, keyword) <==> IsSubstring(keyword, u.username) || IsSubstring(keyword, u.nickname)
    {
      ContainsPatternIsSubstring(u.username, keyword);
      ContainsPatternIsSubstring(u.nickname, keyword);
    }

    /** Without paging, `Search` finds every user whose user name or nickname
        contains a wildcard-free keyword. */
    lemma SearchComplete(keyword: string, i: int)
      requires NoWildcards(keyword) && 0 <= i < |rows|
      requires IsSubstring(keyword, rows[i].username) || IsSubstring(keyword, rows[i].nickname)
      ensures rows[i] in Search(keyword, 0, -1)
    {
      SearchIsSubstring(keyword, rows[i]);
      var m := SearchMatches(keyword);
      assert rows[i] in m;
      assert Search(keyword, 0, -1) == m;
    }

    /** In a valid table, user names identify rows: a found row is the only
        one with that name. */
    lemma GetByUsernameUnique(username: string, i: int)
      requires Valid() && 0 <= i < |rows| && rows[i].username == username
      ensures GetByUsername(username) == Some(rows[i])
    {
    }
  }
}
