/** The `messages` table and its repository
    (internal/repository/message_repo.go). History queries are
    `ORDER BY created_at DESC` followed by OFFSET/LIMIT. SQL leaves the order
    of equal timestamps open; the model keeps table order among them. */
module MessageStore {
  import opened Models
  import opened Seqs

  /** Newest first. */
  ghost predicate NewestFirstOrder(s: seq<Message>) {
    forall i, j :: 0 <= i < j < |s| ==> s[i].createdAt >= s[j].createdAt
  }

  /** Places `x` before the first element that is not newer than it. */
  function Insert(x: Message, s: seq<Message>): (r: seq<Message>)
    requires NewestFirstOrder(s)
    ensures NewestFirstOrder(r)
    ensures multiset(r) == multiset(s) + multiset{x}
    ensures |r| == |s| + 1
    ensures r[0] == x || (s != [] && r[0] == s[0])
    decreases |s|
  {
    if s == [] || x.createdAt >= s[0].createdAt then [x] + s
    else
      var rest := Insert(x, s[1..]);
      assert s == [s[0]] + s[1..];
      [s[0]] + rest
  }

  /** `ORDER BY created_at DESC`: the same rows, newest first. */
  function NewestFirst(s: seq<Message>): (r: seq<Message>)
    ensures NewestFirstOrder(r)
    ensures multiset(r) == multiset(s)
    ensures |r| == |s|
    decreases |s|
  {
    if s == [] then []
    else
      assert s == [s[0]] + s[1..];
      Insert(s[0], NewestFirst(s[1..]))
  }

  /** Sequences with the same multiset have the same elements. */
  lemma SameElements(r: seq<Message>, s: seq<Message>)
    requires multiset(r) == multiset(s)
    ensures forall i :: 0 <= i < |r| ==> r[i] in s
    ensures forall i :: 0 <= i < |s| ==> s[i] in r
  {
    forall i | 0 <= i < |r|
      ensures r[i] in s
    {
      assert r[i] in multiset(r);
    }
    forall i | 0 <= i < |s|
      ensures s[i] in r
    {
      assert s[i] in multiset(s);
    }
  }

  /** A one-to-one conversation row between `a` and `b`, either direction. */
  predicate ChatBetween(m: Message, a: int, b: int) {
    m.groupID == 0 && ((m.fromUserID == a && m.toUserID == b) || (m.fromUserID == b && m.toUserID == a))
  }

  /** An unread message addressed to `userID` (any group id). */
  predicate UnreadFor(m: Message, userID: int) {
    m.toUserID == userID && m.status == MsgStatusUnread
  }

  function UnreadRows(rows: seq<Message>, userID: int): seq<Message> {
    Filter(rows, (m: Message) => UnreadFor(m, userID))
  }

  function GroupRows(rows: seq<Message>, groupID: int): seq<Message> {
    Filter(rows, (m: Message) => m.groupID == groupID)
  }

  function ChatRows(rows: seq<Message>, a: int, b: int): seq<Message> {
    Filter(rows, (m: Message) => ChatBetween(m, a, b))
  }

  /** The table after `MarkAsRead(ids)`. */
  function MarkRead(rows: seq<Message>, ids: seq<int>): (r: seq<Message>)
    ensures |r| == |rows|
    ensures forall i :: 0 <= i < |rows| ==>
      r[i] == if rows[i].id in ids then rows[i].(status := MsgStatusRead) else rows[i]
  {
    UpdateWhere(rows, (m: Message) => m.id in ids, (m: Message) => m.(status := MsgStatusRead))
  }

  /** The table after `MarkChatAsRead(from, to)`. */
  function MarkChatRead(rows: seq<Message>, from: int, to: int): (r: seq<Message>)
    ensures |r| == |rows|
    ensures forall i :: 0 <= i < |rows| ==>
      r[i] == if rows[i].fromUserID == from && rows[i].toUserID == to && rows[i].status == MsgStatusUnread
              then rows[i].(status := MsgStatusRead) else rows[i]
  {
    UpdateWhere(rows, (m: Message) => m.fromUserID == from && m.toUserID == to && m.status == MsgStatusUnread,
      (m: Message) => m.(status := MsgStatusRead))
  }

  /** Marking the same ids twice changes nothing the first call did not. */
  lemma MarkReadIdempotent(rows: seq<Message>, ids: seq<int>)
    ensures MarkRead(MarkRead(rows, ids), ids) == MarkRead(rows, ids)
  {
  }

  /** After `MarkChatAsRead(from, to)` no message from `from` to `to` is unread. */
  lemma MarkChatReadClears(rows: seq<Message>, from: int, to: int)
    ensures forall i :: 0 <= i < |rows| && rows[i].fromUserID == from && rows[i].toUserID == to ==>
      MarkChatRead(rows, from, to)[i].status != MsgStatusUnread
  {
  }

  /** Chat history does not depend on who asks: `(a, b)` and `(b, a)` select
      the same rows. */
  lemma ChatRowsSymmetric(rows: seq<Message>, a: int, b: int)
    ensures ChatRows(rows, a, b) == ChatRows(rows, b, a)
  {
    FilterExt(rows, (m: Message) => ChatBetween(m, a, b), (m: Message) => ChatBetween(m, b, a));
  }

  class MessageRepo {
    var rows: seq<Message>
    var nextID: int

    ghost predicate Valid()
      reads this
    {
      nextID >= 1
      && (forall i :: 0 <= i < |rows| ==> 1 <= rows[i].id < nextID)
      && (forall i, j :: 0 <= i < j < |rows| ==> rows[i].id < rows[j].id)
    }

    constructor ()
      ensures Valid() && rows == [] && nextID == 1
    {
      rows := [];
      nextID := 1;
    }

    /** `Create`: appends `m` under the next id, stamped with the current time. */
    method Create(m: Message, now: int) returns (row: Message)
      requires Valid()
      modifies this
      ensures Valid() && nextID == old(nextID) + 1
      ensures row == m.(id := old(nextID), createdAt := now) && rows == old(rows) + [row]
    {
      row := m.(id := nextID, createdAt := now);
      rows := rows + [row];
      nextID := nextID + 1;
    }

    /** `GetChatHistory`: the one-to-one messages between the two users,
        newest first, then OFFSET/LIMIT. */
    function GetChatHistory(a: int, b: int, offset: int, limit: int): (r: seq<Message>)
      reads this
      ensures |r| == PageLength(|ChatRows(rows, a, b)|, offset, limit)
      ensures forall i :: 0 <= i < |r| ==>
        r[i] == NewestFirst(ChatRows(rows, a, b))[Skipped(|ChatRows(rows, a, b)|, offset) + i]
      ensures limit >= 0 ==> |r| <= limit
      ensures forall i :: 0 <= i < |r| ==> r[i] in rows && ChatBetween(r[i], a, b)
      ensures NewestFirstOrder(r)
    {
      History(ChatRows(rows, a, b), offset, limit)
    }

    /** `GetGroupChatHistory`: the group's messages, newest first, then OFFSET/LIMIT. */
    function GetGroupChatHistory(groupID: int, offset: int, limit: int): (r: seq<Message>)
      reads this
      ensures |r| == PageLength(|GroupRows(rows, groupID)|, offset, limit)
      ensures forall i :: 0 <= i < |r| ==>
        r[i] == NewestFirst(GroupRows(rows, groupID))[Skipped(|GroupRows(rows, groupID)|, offset) + i]
      ensures limit >= 0 ==> |r| <= limit
      ensures forall i :: 0 <= i < |r| ==> r[i] in rows && r[i].groupID == groupID
      ensures NewestFirstOrder(r)
    {
      History(GroupRows(rows, groupID), offset, limit)
    }

    /** `GetUnreadMessages`: exactly the unread messages to the user, newest first. */
    function GetUnreadMessages(userID: int): (r: seq<Message>)
      reads this
      ensures multiset(r) == multiset(UnreadRows(rows, userID))
      ensures forall i :: 0 <= i < |r| ==> r[i] in rows && UnreadFor(r[i], userID)
      ensures forall i :: 0 <= i < |rows| && UnreadFor(rows[i], userID) ==> rows[i] in r
      ensures NewestFirstOrder(r)
    {
      var u := UnreadRows(rows, userID);
      var r := NewestFirst(u);
      SameElements(r, u);
      forall i | 0 <= i < |r|
        ensures r[i] in rows && UnreadFor(r[i], userID)
      {
        var j :| 0 <= j < |u| && u[j] == r[i];
      }
      r
    }

    /** `GetUnreadCount`. */
    function GetUnreadCount(userID: int): (n: nat)
      reads this
      ensures n == |GetUnreadMessages(userID)|
      ensures n > 0 <==> exists i :: 0 <= i < |rows| && UnreadFor(rows[i], userID)
    {
      |UnreadRows(rows, userID)|
    }

    /** `MarkAsRead`: status becomes read for the listed ids; nothing else changes. */
    method MarkAsRead(ids: seq<int>)
      requires Valid()
      modifies this`rows
      ensures Valid()
      ensures rows == MarkRead(old(rows), ids)
    {
      rows := MarkRead(rows, ids);
    }

    /** `MarkChatAsRead`: only unread `from → to` messages become read. */
    method MarkChatAsRead(from: int, to: int)
      requires Valid()
      modifies this`rows
      ensures Valid()
      ensures rows == MarkChatRead(old(rows), from, to)
    {
      rows := MarkChatRead(rows, from, to);
    }
  }

  /** Newest first, then OFFSET/LIMIT, over a selection. */
  function History(sel: seq<Message>, offset: int, limit: int): (r: seq<Message>)
    ensures |r| == PageLength(|sel|, offset, limit)
    ensures forall i :: 0 <= i < |r| ==> r[i] == NewestFirst(sel)[Skipped(|sel|, offset) + i]
    ensures limit >= 0 ==> |r| <= limit
    ensures forall i :: 0 <= i < |r| ==> r[i] in sel
    ensures NewestFirstOrder(r)
  {
    var sorted := NewestFirst(sel);
    var r := Page(sorted, offset, limit);
    SameElements(sorted, sel);
    r
  }
}
