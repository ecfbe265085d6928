/** Sending messages and shaping message lists
    (internal/service/message_service.go). */
module MessageService {
  import opened Wrappers
  import opened Models
  import opened Seqs
  import opened Requests
  import opened UserStore
  import opened FriendStore
  import opened GroupStore
  import opened MessageStore
  import Events
  import PubSub
  import Registry

  /** `publishMessage`'s channel: the group channel exactly when the group
      id is positive. */
  function PublishChannel(m: Message): (c: string)
    ensures c == Events.GroupMessageChannel <==> m.groupID > 0
    ensures c == Events.MessageChannel <==> m.groupID <= 0
  {
    if m.groupID > 0 then Events.GroupMessageChannel else Events.MessageChannel
  }

  /** `types.MessageEventData` as it is decoded on the receiving side;
      `created_at` is the RFC 3339 text of the creation time. */
  function EventData(m: Message, rfc3339: int -> string): Events.Value {
    Events.Object(map[
      "id" := Events.SNum(m.id),
      "from_user_id" := Events.SNum(m.fromUserID),
      "to_user_id" := Events.SNum(m.toUserID),
      "group_id" := Events.SNum(m.groupID),
      "msg_type" := Events.SNum(m.msgType),
      "content" := Events.SStr(m.content),
      "created_at" := Events.SStr(rfc3339(m.createdAt))])
  }

  /** The envelope `publishMessage` sends: always the `message` event, for
      group messages too. */
  function MessageEnvelope(m: Message, now: int, rfc3339: int -> string): (e: Events.Envelope)
    ensures e.event == Events.Message && e.timestamp == now
    ensures e.data.Object? && "to_user_id" in e.data.fields && e.data.fields["to_user_id"] == Events.SNum(m.toUserID)
  {
    Events.Envelope(Events.Message, EventData(m, rfc3339), now)
  }

  /** The relay dispatches on the event, not the channel: every published
      message, group messages included, is delivered to its `to_user_id`
      and to nobody else. */
  lemma RelayDeliversToRecipient(m: Message, now: int, rfc3339: int -> string)
    ensures Registry.RedisTarget(Events.Decoded(MessageEnvelope(m, now, rfc3339))) == Some(m.toUserID)
  {
  }

  /** A group message travels on the group channel yet reaches only its
      `to_user_id`, not the group's members. */
  lemma GroupMessageReachesOnlyRecipient(m: Message, now: int, rfc3339: int -> string)
    requires m.groupID > 0
    ensures PublishChannel(m) == Events.GroupMessageChannel
    ensures Registry.RedisTarget(Events.Decoded(MessageEnvelope(m, now, rfc3339))) == Some(m.toUserID)
  {
    RelayDeliversToRecipient(m, now, rfc3339);
  }

  /** A message with the sender's and recipient's user records, when found. */
  datatype MessageResponse = MessageResponse(message: Message, fromUserInfo: Option<User>, toUserInfo: Option<User>)

  /** The ids one message contributes: its sender, and its recipient when
      the recipient id is positive. */
  function MessageUserIDs(m: Message): set<int> {
    {m.fromUserID} + (if m.toUserID > 0 then {m.toUserID} else {})
  }

  /** The ids `buildMessageResponses` looks up. */
  function ResponseUserIDs(ms: seq<Message>): set<int>
    decreases |ms|
  {
    if ms == [] then {} else ResponseUserIDs(ms[..|ms| - 1]) + MessageUserIDs(ms[|ms| - 1])
  }

  /** Every sender and every positive recipient is looked up. */
  lemma {:induction false} ResponseUserIDsComplete(ms: seq<Message>)
    ensures forall i :: 0 <= i < |ms| ==> MessageUserIDs(ms[i]) <= ResponseUserIDs(ms)
    decreases |ms|
  {
    if ms != [] {
      var init := ms[..|ms| - 1];
      ResponseUserIDsComplete(init);
      forall i | 0 <= i < |ms|
        ensures MessageUserIDs(ms[i]) <= ResponseUserIDs(ms)
      {
        if i < |init| {
          assert init[i] == ms[i];
        }
      }
    }
  }

  /** Nothing else is looked up. */
  lemma {:induction false} ResponseUserIDsSound(ms: seq<Message>, u: int)
    requires u in ResponseUserIDs(ms)
    ensures exists i :: 0 <= i < |ms| && u in MessageUserIDs(ms[i])
    decreases |ms|
  {
    var init := ms[..|ms| - 1];
    if u in ResponseUserIDs(init) {
      ResponseUserIDsSound(init, u);
      var i :| 0 <= i < |init| && u in MessageUserIDs(init[i]);
      assert init[i] == ms[i];
    } else {
      assert u in MessageUserIDs(ms[|ms| - 1]);
    }
  }

  /** One response: the sender's record if indexed, the recipient's only for
      a positive recipient id. */
  function Attach(m: Message, index: map<int, User>): MessageResponse {
    MessageResponse(m,
      if m.fromUserID in index then Some(index[m.fromUserID]) else None,
      if m.toUserID > 0 && m.toUserID in index then Some(index[m.toUserID]) else None)
  }

  function AttachAll(ms: seq<Message>, index: map<int, User>): (r: seq<MessageResponse>)
    ensures |r| == |ms| && forall i :: 0 <= i < |ms| ==> r[i] == Attach(ms[i], index)
  {
    seq(|ms|, i requires 0 <= i < |ms| => Attach(ms[i], index))
  }

  function Looked(users: seq<User>, ids: set<int>): seq<User> {
    Filter(users, (u: User) => u.id in ids)
  }

  /** `buildMessageResponses` over the user table `users`. */
  function MessageResponses(ms: seq<Message>, users: seq<User>): seq<MessageResponse> {
    AttachAll(ms, UserIndex(Looked(users, ResponseUserIDs(ms))))
  }

  /** A user id among the looked-up ones is indexed exactly when the table
      has a user with that id, and then maps to such a user. */
  lemma IndexedIffExists(users: seq<User>, ids: set<int>, u: int)
    requires u in ids
    ensures u in UserIndex(Looked(users, ids)) <==> exists k :: 0 <= k < |users| && users[k].id == u
    ensures u in UserIndex(Looked(users, ids)) ==> UserIndex(Looked(users, ids))[u] in users
  {
    var found := Looked(users, ids);
    if exists k :: 0 <= k < |users| && users[k].id == u {
      var k :| 0 <= k < |users| && users[k].id == u;
      assert users[k] in found;
      var j :| 0 <= j < |found| && found[j] == users[k];
    }
    if u in UserIndex(found) {
      assert UserIndex(found)[u] in found;
      var j :| 0 <= j < |found| && found[j].id == u;
      assert found[j] in users;
    }
  }

  /** What `buildMessageResponses` promises: one response per message, in
      order (so none for no messages); the sender's record is attached
      exactly when the sender exists, the recipient's exactly when the
      recipient id is positive and the recipient exists. */
  lemma MessageResponsesSpec(ms: seq<Message>, users: seq<User>)
    ensures var r := MessageResponses(ms, users);
      |r| == |ms| && forall i :: 0 <= i < |ms| ==> r[i].message == ms[i]
    ensures var r := MessageResponses(ms, users);
      forall i :: 0 <= i < |ms| ==>
        (r[i].fromUserInfo.Some? <==> exists k :: 0 <= k < |users| && users[k].id == ms[i].fromUserID)
        && (r[i].fromUserInfo.Some? ==> r[i].fromUserInfo.value in users && r[i].fromUserInfo.value.id == ms[i].fromUserID)
    ensures var r := MessageResponses(ms, users);
      forall i :: 0 <= i < |ms| ==>
        (r[i].toUserInfo.Some? <==> ms[i].toUserID > 0 && exists k :: 0 <= k < |users| && users[k].id == ms[i].toUserID)
        && (r[i].toUserInfo.Some? ==> r[i].toUserInfo.value in users && r[i].toUserInfo.value.id == ms[i].toUserID)
  {
    var ids := ResponseUserIDs(ms);
    ResponseUserIDsComplete(ms);
    forall i | 0 <= i < |ms|
      ensures ms[i].fromUserID in UserIndex(Looked(users, ids)) <==> exists k :: 0 <= k < |users| && users[k].id == ms[i].fromUserID
      ensures ms[i].fromUserID in UserIndex(Looked(users, ids)) ==> UserIndex(Looked(users, ids))[ms[i].fromUserID] in users
      ensures ms[i].toUserID > 0 ==>
        (ms[i].toUserID in UserIndex(Looked(users, ids)) <==> exists k :: 0 <= k < |users| && users[k].id == ms[i].toUserID)
      ensures ms[i].toUserID > 0 && ms[i].toUserID in UserIndex(Looked(users, ids)) ==>
        UserIndex(Looked(users, ids))[ms[i].toUserID] in users
    {
      IndexedIffExists(users, ids, ms[i].fromUserID);
      if ms[i].toUserID > 0 {
        IndexedIffExists(users, ids, ms[i].toUserID);
      }
    }
  }

  /** The id-collecting loop of `buildMessageResponses`. */
  method CollectUserIDs(ms: seq<Message>) returns (ids: set<int>)
    ensures ids == ResponseUserIDs(ms)
  {
    ids := {};
    var i := 0;
    while i < |ms|
      invariant 0 <= i <= |ms|
      invariant ids == ResponseUserIDs(ms[..i])
    {
      assert ms[..i + 1][..i] == ms[..i];
      ids := ids + {ms[i].fromUserID};
      if ms[i].toUserID > 0 {
        ids := ids + {ms[i].toUserID};
      }
      i := i + 1;
    }
    assert ms[..|ms|] == ms;
  }

  /** The response-building loop of `buildMessageResponses`. */
  method AttachEach(ms: seq<Message>, index: map<int, User>) returns (result: seq<MessageResponse>)
    ensures result == AttachAll(ms, index)
  {
    result := [];
    var i := 0;
    while i < |ms|
      invariant 0 <= i <= |ms|
      invariant result == AttachAll(ms[..i], index)
    {
      result := result + [Attach(ms[i], index)];
      i := i + 1;
    }
    assert ms[..|ms|] == ms;
  }

  class MessageServiceImpl {
    const messages: MessageRepo
    const users: UserRepo
    const friends: FriendRepo
    const groups: GroupRepo
    const bus: PubSub.Bus

    ghost predicate Valid()
      reads messages
    {
      messages.Valid()
    }

    constructor (messages: MessageRepo, users: UserRepo, friends: FriendRepo, groups: GroupRepo, bus: PubSub.Bus)
      ensures this.messages == messages && this.users == users && this.friends == friends
      ensures this.groups == groups && this.bus == bus
    {
      this.messages := messages;
      this.users := users;
      this.friends := friends;
      this.groups := groups;
      this.bus := bus;
    }

    /** `SendMessage`: a direct message (group id 0) needs an accepted
        friendship from the sender to the recipient, any other needs the
        sender's membership of the group. The stored message copies the
        request, starts unread and is stamped `now`; it is then published,
        and a failed publish does not fail the send. */
    method SendMessage(fromUserID: int, req: SendMessageRequest, now: int, rfc3339: int -> string) returns (res: Result<Message>)
      requires Valid()
      modifies messages, bus`log
      ensures Valid()
      ensures req.groupID == 0 && !friends.IsFriend(fromUserID, req.toUserID) ==>
        res == Err("not friends, cannot send message")
      ensures req.groupID != 0 && !groups.IsMember(req.groupID, fromUserID) ==>
        res == Err("not group member, cannot send message")
      ensures res.Ok? <==>
        if req.groupID == 0 then friends.IsFriend(fromUserID, req.toUserID) else groups.IsMember(req.groupID, fromUserID)
      ensures res.Err? ==> messages.rows == old(messages.rows) && bus.log == old(bus.log)
      ensures res.Ok? ==>
        res.value == Message(old(messages.nextID), fromUserID, req.toUserID, req.groupID, req.msgType, req.content, MsgStatusUnread, now)
      ensures res.Ok? ==> messages.rows == old(messages.rows) + [res.value]
      ensures res.Ok? ==>
        bus.log == old(bus.After(Events.Publication(PublishChannel(res.value), MessageEnvelope(res.value, now, rfc3339))))
    {
      if req.groupID == 0 {
        if !friends.IsFriend(fromUserID, req.toUserID) {
          return Err("not friends, cannot send message");
        }
      } else {
        if !groups.IsMember(req.groupID, fromUserID) {
          return Err("not group member, cannot send message");
        }
      }
      var stored := messages.Create(Message(0, fromUserID, req.toUserID, req.groupID, req.msgType, req.content, MsgStatusUnread, 0), now);
      var _ := bus.Publish(PublishChannel(stored), MessageEnvelope(stored, now, rfc3339));
      res := Ok(stored);
    }

    /** `buildMessageResponses`: nothing for no messages; otherwise look up
        every sender and positive recipient once and attach what was found. */
    method BuildMessageResponses(ms: seq<Message>) returns (result: seq<MessageResponse>)
      ensures result == MessageResponses(ms, users.rows)
    {
      if |ms| == 0 {
        return [];
      }
      var idSet := CollectUserIDs(ms);
      var ids := Registry.ListKeys(idSet);
      var found := users.GetByIDs(ids);
      FilterExt(users.rows, (u: User) => u.id in ids, (u: User) => u.id in idSet);
      var index := IndexUsers(found);
      result := AttachEach(ms, index);
    }

    /** `GetChatHistory` with the user records attached. */
    method GetChatHistory(userID: int, friendID: int, offset: int, limit: int) returns (result: seq<MessageResponse>)
      ensures result == MessageResponses(messages.GetChatHistory(userID, friendID, offset, limit), users.rows)
    {
      result := BuildMessageResponses(messages.GetChatHistory(userID, friendID, offset, limit));
    }

    /** `GetGroupChatHistory` with the user records attached. */
    method GetGroupChatHistory(groupID: int, offset: int, limit: int) returns (result: seq<MessageResponse>)
      ensures result == MessageResponses(messages.GetGroupChatHistory(groupID, offset, limit), users.rows)
    {
      result := BuildMessageResponses(messages.GetGroupChatHistory(groupID, offset, limit));
    }

    /** `GetUnreadMessages` with the user records attached. */
    method GetUnreadMessages(userID: int) returns (result: seq<MessageResponse>)
      ensures result == MessageResponses(messages.GetUnreadMessages(userID), users.rows)
    {
      result := BuildMessageResponses(messages.GetUnreadMessages(userID));
    }
  }
}
